# AURKA verification

AURKA settles trades between a rule-bound portfolio (a Space) and traders.  Its financial core works
in exact integers: it values a portfolio, charges a fee that is quadratic in how much of an epoch's
capacity is used, applies the trade and binary-searches for the largest fill that leaves every asset
inside its weight range.  Two services keep state over whole runs: a worker that signs and sends risk
certificates, and an indexer that follows a reorganizing chain.  This project models that logic in
Dafny and proves what it guarantees.

`dafny verify dfyconfig.toml` checks everything.

## How the model is arranged

| file | models |
|---|---|
| `Wrappers.dfy`, `Uint256.dfy` | results; checked 256-bit arithmetic, rounding, errors; an exception is an `Err` result |
| `Search.dfy` | the bisection of both fill solvers as a function of the predicate it probes |
| `Weights.dfy`, `Portfolios.dfy`, `Constraints.dfy`, `SafeFill.dfy`, `SafeFillExact.dfy` | weights, valuation, trades, the constraint checker, the fee-free safe fill and its closed form |
| `Fees.dfy`, `FeeGrowth.dfy`, `FeeTelescope.dfy`, `Capacity.dfy` | the interval-average fee, how it grows, why splitting a fill does not change it, capacity bookkeeping |
| `PriceProtection.dfy` | freshness, deviation and exchange-value checks and the bound they compose to |
| `Settlement.dfy`, `DirectSettlement.dfy`, `SettlementRuns.dfy`, `Counterexamples.dfy` | the fee-inclusive settlement, runs of settlements, and inputs on which a hypothesis cannot be dropped |
| `FundingGuidance.dfy`, `AmountIncrement.dfy` | the funding form's ranges and exactly convertible amounts |
| `RiskWorker.dfy`, `RiskWorkerSafety.dfy`, `RiskWorkerAuthority.dfy`, `RiskWorkerTicks.dfy`, `RiskWorkerRows.dfy`, `RiskWorkerExpiry.dfy` | the certificate worker as interleaved steps between awaits, its safety, the authority it acts under, what one tick does, the rows it stores, and what it knows of the clock |
| `Sorting.dfy` | the sort applied to fetched logs and observations |
| `ChainHistory.dfy`, `Indexer.dfy` | hash-linked histories, the repository, the indexer's sync |
| `Pagination.dfy` | cursor pagination of subgraph observations |
| `Decimals.dfy` | decimal text |
| `AbiWords.dfy`, `AbiEncoding.dfy` | byte strings behind two commitments |

Loops of the source are methods with invariants, each proved against a specification function; the
repository, the chain source and the indexer are classes; pure code is functions.  The worker is a
state machine on values because what matters is every interleaving of its steps.

## What is proved

- **Settlement.**  From a safe portfolio the executed value is the greatest acceptable one within
  request, cap, capacity and balance, and no probe of the search throws, provided the fill range is
  gentle (next item) and the fee cannot push a third asset below its minimum (two assets, zero third
  minimums, enough room, or no solver and protocol shares).  Without the second proviso the search
  finds the greatest fill for every request exactly when no smaller fill's retained fee crosses a
  third asset's minimum while a larger fill's inequalities hold.  What a settlement must commit to is
  stated field by field, the capacity epoch by the 32 bytes of its digest.  Whether a settlement throws,
  reports no constraint for a partial fill, or fills nothing is decided by conditions on its inputs.
  The constraint reported for a positive partial fill is explained, a weight range as the first one the
  next unit crosses; the MINIMUM_WEIGHT reported for a zero fill is right exactly under a condition on
  the market.  Runs of settlements in any mixture of directions keep the portfolio safe and account for
  NAV and capacity to the unit.
- **Constraints.**  The checker reports exactly the bounds that are crossed in exact arithmetic, each
  once, the cap first and the assets in portfolio order, with the rounded shares and their distance.
- **Fees.**  The fee is nondecreasing in the fill and never exceeds one percent rounded up, so the
  fee-cap exception is unreachable for a valid configuration.  Up to 99 * 10^18 (more for flatter
  configurations) it grows by at most one per unit, on every representable baseline; at
  99.05 * 10^18 there is an epoch in which it jumps by two.  Splitting a fill into n consecutive fills
  changes the total fee by at least -1 and at most n up to 49.75 * 10^18 in all; at 50.01 * 10^18 there
  is a split that is charged two less.  The services cap trades at 10^9.
- **Safe fill.**  The fee-free safe fills lie between two numbers computed from portfolio and policy,
  and the search answers every request that has one with the greatest exactly when the lower number is
  at most 1 or no fill can be safe.
- **Prices.**  The accepted price commitments are those of recent positive prices with approved
  identifiers, within the deviation as exact rationals, whose floored input value covers the allowed
  share of the ceiled output value.  Accepted prices with deviation d imply, in exact rationals at reference prices,
  in * (10000 + d) * 10000 >= (10000 - d)^2 * out.  The bound is attained for every d below 10000.
- **Funding guidance.**  The guided raw ranges for WETH and USDC contain exactly the amounts the
  constraint checker accepts.
- **Risk worker.**  Over every interleaving of ticks, crashes, exceptions and lease takeovers,
  everything sent was persisted first and closed by no event since, and two different certificates are
  sent only with an expiry, revocation, supersession or finalization between them.  Before every
  signature and every send the last answer of the registry authorizes exactly that certificate.  A tick
  that is refused nothing signs, stores, sends and records one certificate.  The stored row
  tells at every moment whether its certificate is open.  A sent certificate had not expired when the
  sending attempt read or built it; by the time it is sent it may have.  A finalization is of a
  transaction that was sent and submitted for the certificate, in a block found canonical twice.
- **Indexer.**  After every successful sync, whatever reorganizations happened between calls, the
  store is exactly the index of the canonical chain; no canonical block is rolled back; repeating the
  sync changes nothing; and each call answers the number of logs it added and the last indexed block.
  Against a source that changes at every query the recursion still ends, and every stored event lies in
  a block whose header is retained.
- **Pagination, decimals, encoding.**  Every matching row once and final; parse and format are inverse;
  each commitment's bytes decode to what was committed.

## Where the code falls short of a plain reading

- `Counterexamples.TightMinimumHidesSafeFill`: with three assets, a third asset exactly at its minimum
  and all of a one-percent fee paid to solver and protocol, the retained fee is 1 for fills up to 100
  and 0 at 101.  A request of 101 could be executed in full, but the search answers 0.
- `Counterexamples.UnsafeStartHidesSafeFill`: from a portfolio outside its ranges the fee-free search
  can answer 0 although safe fills exist.  `SafeFillExact.EveryRequestIsAnsweredIff` says exactly when:
  a start two or more units short of a range, with a safe fill in reach.
- `Counterexamples.WholeBalanceSaleThrows`: a request exceeds the whole output balance, the balance is
  acceptable and nothing else limits the fill.  If the treasury would keep no fee on one unit more, the
  settlement is found and then `findBinding` throws while explaining why it stopped
  (`DirectSettlement.SettlementThrowsIff`).  If that unit's inequalities still hold, the partial fill is
  reported with constraint NONE (`Counterexamples.WholeBalanceSaleReportsNone`,
  `DirectSettlement.ReportsNoneIff`).
- `Counterexamples.ZeroFillMisreported`: a zero fill is reported as MINIMUM_WEIGHT whatever stops it
  (`packages/shared/src/settlement.ts:161-162`).  With the input asset at its maximum weight every fill
  is refused for that maximum, and the report is still MINIMUM_WEIGHT.
  `DirectSettlement.ZeroFillReportIff` says exactly when a minimum is really in the way.
- `FundingGuidance.UnfitDraftIsGuided`: a draft that asks for USDC alone and for some WETH has no fitting
  amounts, but its USDC range can still contain some.  `FundingGuidance.UsdcForWethIff` says exactly which
  drafts are guided by fewer bounds than they have.
- `FeeGrowth.LargeFillJumps`, `FeeTelescope.CoarseSplitLosesTwo`: beyond the limits above the fee can
  jump by two for one unit, and a split can be charged two units less than the whole.
  `FeeGrowth.LipschitzIff` and `FeeTelescope.SplitIsFairIff` say exactly when, in terms of rates and of
  what the charges are short of whole units.
- `RiskWorkerSafety.StaleTickCanSign`: the lease is checked after every await except the one for the
  signing authorization (`packages/services/src/risk-worker.ts:275`), so a tick that lost its lease
  there still signs a second certificate of the same nonce.  It never stores or sends it.
  `RiskWorkerSafety.SignsOverOpenIff`: a signature is made over an open certificate exactly when the row
  stored at that moment is open, which a second look at the row before signing would show.
- `RiskWorkerExpiry.ExpiredCanBeSent`: after reading or building a certificate the worker does not
  compare its expiry with the clock again, so a tick that is suspended long enough hands an expired one
  to the wallet.
- `RiskWorkerRows.PoisonedReachable`, `PoisonedForever`: a stored certificate that expires no later than
  it was issued fails the schema on every later read and stops the position's worker for good.  Such a
  row is stored exactly when its certificate was built after the policy had run out
  (`RiskWorkerRows.UnreadableRowIff`), and never with a wallet that, like the shipped adapter, refuses
  to sign it (`RiskWorkerRows.RefusingWalletsStayReadable`).

## Model

| member | source | states |
|---|---|---|
| Uint256.CheckedMul | packages/shared/src/financial.ts:207-211 | the division guard refuses exactly the products above 2^256 - 1 |
| Uint256.CeilDivLe | packages/shared/src/financial.ts:213-217 | the ceiling quotient is at most q exactly when n <= q * d, the adjunction all upward rounding rests on |
| Uint256.FloorDivGe | packages/shared/src/financial.ts:219-221 | the floor quotient is at least q exactly when q * d <= n |
| Search.BisectStops | packages/shared/src/financial.ts:706-714 | for any predicate the loop ends at the start or at an acceptable value, and the next value is refused |
| Search.BisectGreatestInInterval | packages/shared/src/financial.ts:706-714 | on an interval of acceptable values a positive answer is the greatest one |
| Search.BisectGreatestForEveryRequestIff | packages/shared/src/settlement.ts:257-273 | every request gets its greatest acceptable value exactly when acceptance is downward closed |
| Search.FindsWhatExistsIff | packages/shared/src/financial.ts:706-714 | on an interval every request with an acceptable value gets the greatest one exactly when 0 or 1 is acceptable or nothing is |
| Weights.BpsOfDownReaches | packages/shared/src/financial.ts:223-227 | the split quotient is the exact floor of total * bps / 10000 |
| Weights.BpsOfUpWithin | packages/shared/src/financial.ts:229-234 | the split quotient is the exact ceiling of total * bps / 10000 |
| Weights.WeightBps | packages/shared/src/financial.ts:236-253 | both binary searches return the specified ceiling and floor weight, capped at 10000 |
| Weights.WeightsAreExact | packages/shared/src/financial.ts:236-253 | for value <= nav those weights are ceil and floor of 10000 * value / nav |
| Portfolios.CheckedSum | packages/shared/src/financial.ts:502-505 | the checked left-to-right sum succeeds exactly when the total fits, and is the total |
| Portfolios.ScaledValueIff | packages/shared/src/financial.ts:336-370 | an amount is valued exactly when amount, positive price and scales are admissible and the scaled product fits; the fraction is then the exact value |
| Portfolios.ValuationIff | packages/shared/src/financial.ts:467-512 | a portfolio is valued exactly when it has distinct, valuable assets whose ceiled values have a positive sum that fits; NAV is that sum, and each asset keeps its fields and gets its value and weight |
| Portfolios.ValuationIsWellFormed | packages/shared/src/financial.ts:467-512 | a successful valuation has distinct tokens, positive NAV equal to the sum of values, and exact weights |
| Portfolios.TradeKeepsWellFormed | packages/shared/src/financial.ts:526-561 | a fee-free trade keeps well-formedness and NAV |
| Portfolios.AssetIndex | packages/shared/src/financial.ts:516-524 | the first asset with the token, or an error exactly when there is none |
| Constraints.ValidatePolicy | packages/shared/src/financial.ts:310-334 | the loop accepts exactly the policies with distinct tokens, ordered ranges, and sums that admit 10000 |
| Constraints.EvaluateConstraints | packages/shared/src/financial.ts:633-682 | the accumulating loop computes the specified evaluation; it succeeds exactly for a valid policy, an amount in range and managed assets, and then reports exactly the crossed bounds |
| Constraints.ViolationsIff | packages/shared/src/financial.ts:646-672 | collection fails exactly on an unmanaged asset, and is empty exactly when every exact weight is in range |
| Constraints.EvaluateIff | packages/shared/src/financial.ts:633-682 | safe exactly when the trade is within the cap and min * nav <= 10000 * value <= max * nav for every asset |
| Constraints.EvaluationIsReport | packages/shared/src/financial.ts:641-682 | every bound that is crossed in exact arithmetic is reported once, the cap first and the assets in portfolio order, with actual number, bound and their distance; the binding constraint and asset are those of the first one |
| Constraints.ExcessIsPositive | packages/shared/src/financial.ts:652-671 | every reported excess is positive, although shares are rounded |
| Constraints.ReportedSharesAreExact | packages/shared/src/financial.ts:650-671 | on a well-formed portfolio the reported weights are the exact floor below a minimum and the exact ceiling above a maximum |
| Constraints.PolicyBoundsAreStated | packages/shared/src/financial.ts:295-308 | the range of a token is the one the policy states for it |
| SafeFill.TradeShape | packages/shared/src/financial.ts:526-561 | a trade succeeds exactly when both sides stay in range, moves only the two values, and recomputes the weights |
| SafeFill.FitsIsInterval | packages/shared/src/financial.ts:692-714 | the safe fills of any portfolio form an interval |
| SafeFill.ProbeNeverFails | packages/shared/src/financial.ts:706-714 | when NAV is the sum of the values no checked operation of the loop throws |
| SafeFill.FindFirstUnsafeBinding | packages/shared/src/financial.ts:734-764 | reports the specified constraint |
| SafeFill.BindingExplainsStop | packages/shared/src/financial.ts:734-764 | the reported constraint is the cap or balance exactly reached, or the first range the next unit crosses |
| SafeFill.FoundFillIsMaximum | packages/shared/src/financial.ts:692-732 | the bisection's answer is in range, trades, the next unit is refused, and it is greatest from a safe start or when positive |
| SafeFill.FindMaximumSafeFill | packages/shared/src/financial.ts:692-732 | the whole solver: greatest safe fill from a safe start or when positive; on a well-formed portfolio it answers exactly the admissible orders; with managed assets and a pair it reports NONE exactly for a complete fill, otherwise explains the stop, and names the asset |
| SafeFillExact.FitsBetween | packages/shared/src/financial.ts:692-714 | a fill is safe exactly when it lies between two numbers computed from portfolio and policy and the other assets are in range |
| SafeFillExact.EveryRequestIsAnsweredIff | packages/shared/src/financial.ts:692-732 | every request that has a safe fill is answered with the greatest one exactly when the lower number is at most 1, or no fill can be safe |
| SafeFillExact.SafeStartFill | packages/shared/src/financial.ts:692-732 | from a safe start the answer is the smaller of the search range and the upper number |
| Fees.PremiumBound | packages/shared/src/financial.ts:906-926 | the rounded premium never exceeds the slope, so the fee-cap exception cannot be reached |
| Fees.UtilizationIff | packages/shared/src/financial.ts:769-779 | utilization is the floored scaled share, none or all without capacity, and fails exactly beyond the capacity or on overflow |
| Fees.OptionSpaceFeeIff | packages/shared/src/financial.ts:889-932 | computed exactly for valid rates and an ordered interval within full utilization, and never above the cap |
| Fees.DistributeFeesIff | packages/shared/src/financial.ts:958-1000 | for any inputs: succeeds exactly for an admissible value, configuration and interval whose scaled product fits; states each rate and amount |
| Fees.DistributionSatisfiesQuoteSchema | packages/shared/src/quote.ts:38-99 | every distribution, base fee 0 included, meets every sum and cap of the quote schema with nonnegative parts |
| FeeGrowth.UtilizationBounds | packages/shared/src/financial.ts:769-779 | scaled utilization is the floored share and never exceeds one |
| FeeGrowth.FeeForIff | packages/shared/src/settlement.ts:90-108 | a fill within its epoch is priced exactly for a valid configuration whose scaled products fit; states each amount |
| FeeGrowth.TotalFeeBound | packages/shared/src/financial.ts:958-1000 | the fee is at most one percent rounded up |
| FeeGrowth.TotalFeeStep | packages/shared/src/financial.ts:889-1000 | one more unit never lowers the fee, and raises that of a gentle fill by at most one |
| FeeGrowth.TotalFeeGrowth | packages/shared/src/financial.ts:889-1000 | the fee is nondecreasing over any two fills of any epoch, and 1-Lipschitz up to a gentle one |
| FeeGrowth.RetainedFeeBounds | packages/shared/src/financial.ts:972-998 | solver and protocol shares fit in the base fee, and the treasury keeps between nothing and the fee |
| FeeGrowth.RetainedFeeGrowth | packages/shared/src/financial.ts:972-998 | what the treasury keeps rises by at most one per unit up to a gentle fill, and cannot fall without external shares |
| FeeGrowth.SmallFillsAreGentle | packages/shared/src/financial.ts:889-1000 | fills up to 99 * 10^18 are gentle for every valid configuration |
| FeeGrowth.LargeFillJumps | packages/shared/src/financial.ts:889-1000 | an epoch in which a fill 0.05% above that gains two fee units with one more unit |
| FeeGrowth.LipschitzIff | packages/shared/src/financial.ts:889-1000 | for any fill range: growth by at most one per unit exactly when every step of the rate over the fill, with the new unit's rate, fits in one fee unit and what the charge was short of a whole one |
| FeeGrowth.RetainedFeeOfUnit | packages/shared/src/financial.ts:958-1000 | of a single unit the treasury keeps one when a fee is due and no recipient takes all of the base fee, otherwise nothing |
| FeeTelescope.PotentialOfFill | packages/shared/src/financial.ts:880-888 | the exact fee of a fill is a difference of a cubic potential in consumption |
| FeeTelescope.FeeAgainstPotential | packages/shared/src/financial.ts:889-1000 | the charged fee lies within one unit and a small slack of that difference |
| FeeTelescope.SplitAgainstPotential | packages/shared/src/financial.ts:889-1000 | over consecutive fills the exact parts telescope and only roundings add up |
| FeeTelescope.SplitFeesAreAdditive | packages/shared/src/financial.ts:880-1000 | for any split into n fills of at most RATE_SCALE / (2 * slope + 1) in all, -1 <= sum of fees - one-shot fee <= n, and none of them throws |
| FeeTelescope.CoarseSplitLosesTwo | packages/shared/src/financial.ts:880-1000 | three consecutive fills, half a percent above that limit, charged two units less than the one-shot fill |
| FeeTelescope.RateLossIsRounding | packages/shared/src/financial.ts:880-1000 | over any split the parts' rates lose to the rate of the whole at most 2 * slope + 1 per unit, though each differs from it |
| FeeTelescope.SplitIsFairIff | packages/shared/src/financial.ts:880-1000 | for any split: within -1 and n exactly when that loss and the whole's residue fit in one fee unit and the parts' residues, and these in one unit a part and the former |
| Capacity.RunIff | packages/shared/src/financial.ts:840-878 | from any state, even past its baseline, a run succeeds exactly when every flow leaves a permitted total, and then accounts for every one |
| Capacity.ReverseUndoesConsume | packages/shared/src/financial.ts:840-878 | reversing a consumption restores the state, and splitting one changes nothing |
| PriceProtection.AssertSettlementPriceProtection | packages/shared/src/price.ts:416-464 | accepts exactly the protected settlements: four recent positive prices, approved identifiers of equal bytes, deviations as exact rationals, and the floor and ceiling exchange inequality, with room for the products; the reported values are that floor, that ceiling and the least input that would do |
| PriceProtection.FreshIff | packages/shared/src/price.ts:268-290 | a price is fresh exactly when it was observed neither in the future nor longer ago than allowed, and is admissible |
| PriceProtection.ApprovedIff | packages/shared/src/price.ts:293-307 | a snapshot is approved exactly when it is of the token and its identifier has the approved 32 bytes |
| PriceProtection.DeviationIff | packages/shared/src/price.ts:312-346 | an execution price is accepted exactly when it lies within the deviation as an exact rational and the products fit |
| PriceProtection.ExchangeIff | packages/shared/src/price.ts:353-413 | an exchange is accepted exactly when the floored input covers the share of the ceiled output |
| PriceProtection.MinimumIsCeiling | packages/shared/src/price.ts:241-250 | the split ceiling is the least multiple that reaches the exact product |
| PriceProtection.DeviationBounds | packages/shared/src/price.ts:312-346 | an accepted execution price is within the deviation of the reference in both directions, across decimal scales |
| PriceProtection.ExecutionBound | packages/shared/src/price.ts:383-413 | floor and ceiling values that pass the check imply the exact rational bound |
| PriceProtection.WorstCaseTreasuryBound | packages/shared/src/price.ts:311-464 | the worst-case treasury bound in exact rationals at reference prices |
| PriceProtection.WorstCaseIsAttained | packages/shared/src/price.ts:311-464 | for every deviation below 100% and every size an accepted settlement meets that bound with equality, so it cannot be improved |
| Settlement.FeeTradeShape | packages/shared/src/financial.ts:573-628 | a fee-inclusive trade raises NAV by exactly the retained fee and changes only the two traded values |
| Settlement.FeeTradeIff | packages/shared/src/financial.ts:573-628 | for any inputs: it succeeds exactly for no value, or for two assets of the portfolio, fees within the value, and balances and NAV that stay in range |
| Settlement.FeeTradeSucceeds | packages/shared/src/financial.ts:573-628 | it cannot throw when the balance covers the fill and NAV has room for the fee |
| Settlement.TryFill | packages/shared/src/settlement.ts:257-273 | one probe with its catch branch accepts exactly the specified fills |
| Settlement.SearchFill | packages/shared/src/settlement.ts:257-273 | the while loop is the bisection of that predicate |
| Settlement.ProbeIff | packages/shared/src/settlement.ts:110-122 | a probe in range never throws, and accepts exactly the fills within the cap whose exact weights are in range |
| Settlement.DownwardClosedIff | packages/shared/src/settlement.ts:240-289 | accepted fills are downward closed exactly when no retained fee crosses an untouched minimum below a fill whose inequalities hold |
| Settlement.GreatestForEveryRequestIff | packages/shared/src/settlement.ts:240-289 | the exact condition for the search to answer every request with the greatest fill |
| Settlement.AcceptedFillsAreDownwardClosed | packages/shared/src/settlement.ts:240-289 | that condition holds with room on untouched minimums or without external shares |
| Settlement.UntouchedRoomOfPair | packages/shared/src/settlement.ts:240-289 | two assets, or zero minimums on the others, always leave that room |
| Settlement.SearchFindsGreatestFill | packages/shared/src/settlement.ts:240-289 | the search finds the greatest acceptable fill and the catch branch never fires |
| DirectSettlement.FindBinding | packages/shared/src/settlement.ts:145-187 | reports the specified constraint, errors included; that is the cap or capacity exactly reached, or, for a positive fill, the next unit accepted, unpriceable or crossing the named range of the named asset first; for a zero fill MINIMUM_WEIGHT says only that cap and capacity leave room |
| DirectSettlement.CommitmentsIff | packages/shared/src/settlement.ts:197-237 | the checks in front of the prices accept exactly the committed settlements: request, consumption and baseline, fee token and mode, the epoch's baseline, consumption, direction and digest, both decimal scales and both reference tokens |
| DirectSettlement.EpochHasOneIdentifier | packages/shared/src/epoch.ts:131-143 | two identifiers accepted for one epoch differ at most in hex case |
| DirectSettlement.FillTopIsLeast | packages/shared/src/settlement.ts:240-256 | the search range is the least of request, cap, remaining capacity and balance |
| DirectSettlement.ProbeExplains | packages/shared/src/settlement.ts:170-187 | a probe names no constraint exactly when it accepts, and otherwise the first bound that is crossed |
| DirectSettlement.Settle | packages/shared/src/settlement.ts:240-325 | search, fees, final portfolio, legs, and a constraint that explains a positive fill as above; throws exactly when the final trade or the constraint report does |
| DirectSettlement.CalculateDirectSettlement | packages/shared/src/settlement.ts:194-325 | succeeds exactly on committed, price-protected inputs that do not throw after the search; the value executed is the bisection's, safe or 0, the next unit refused, the five legs sum to it, the constraint explains a positive fill; from an orderly market success, NONE on a partial fill, a zero fill, and whether a minimum really stopped it are decided by the inputs |
| DirectSettlement.ExecutedValueIsGreatest | packages/shared/src/settlement.ts:194-325 | from a safe portfolio the executed value is the greatest acceptable one within every limit |
| DirectSettlement.ProbeBeyondBalance | packages/shared/src/settlement.ts:170-187 | one unit beyond the balance trades exactly when the retained fee is positive |
| DirectSettlement.SettlementThrowsIff | packages/shared/src/settlement.ts:145-325 | a settlement of an orderly market throws exactly when the whole balance is acceptable, below request, capacity and cap, and nothing would be kept of one unit more |
| DirectSettlement.ReportsNoneIff | packages/shared/src/settlement.ts:145-187 | a partial fill is reported with NONE exactly when it sells out and the inequalities of one unit more hold |
| DirectSettlement.ZeroFillIff | packages/shared/src/settlement.ts:240-289 | with cap and capacity left, an orderly market fills nothing exactly when there is no balance or the inequalities of one unit fail |
| DirectSettlement.ZeroFillReportIff | packages/shared/src/settlement.ts:145-187 | such a fill is reported as MINIMUM_WEIGHT; a unit really trades and leaves an asset below its minimum exactly when balance or retained fee cover it and an asset's value falls short of its share |
| SettlementRuns.AdvanceKeeps | packages/shared/src/settlement.ts:194-325 | one settlement keeps the portfolio safe and accounts for NAV and capacity |
| SettlementRuns.RunsKeepPortfolioSafe | packages/shared/src/settlement.ts:194-325 | over any run: safe throughout, NAV is the initial one plus every retained fee, consumption is initial plus executed values and within the baseline, legs sum |
| Counterexamples.UnsafeStartHidesSafeFill | packages/shared/src/financial.ts:692-732 | a start outside the ranges from which the search answers 0 although safe fills exist |
| Counterexamples.TightMinimumHidesSafeFill | packages/shared/src/settlement.ts:257-273 | safe three-asset portfolios of every size from which an acceptable request is answered with 0 |
| Counterexamples.WholeBalanceSaleThrows | packages/shared/src/settlement.ts:145-187 | ready two-asset markets of every size in which the found fill is followed by an exception |
| Counterexamples.WholeBalanceSaleReportsNone | packages/shared/src/settlement.ts:145-187 | orderly two-asset markets of every size and every flat treasury fee that meet the condition of `ReportsNoneIff` |
| Counterexamples.ZeroFillMisreported | packages/shared/src/settlement.ts:145-187 | orderly two-asset markets of every size with balance, cap and capacity, in which one unit is refused but crosses no minimum |
| FundingGuidance.RangeInvertsValuation | apps/trader/src/pages/SpaceForm.tsx:249-304 | positive raw amounts in a range are exactly those whose ceiling value lies within its bounds |
| FundingGuidance.AllocationIssueIff | apps/trader/src/pages/SpaceForm.tsx:450-477 | a draft has no issue exactly with two assets or more, weights in range and order, and sums that admit the whole |
| FundingGuidance.ValuationsAgree | apps/trader/src/pages/SpaceForm.tsx:253-261 | the form's value is the settlement's value |
| FundingGuidance.PairBoundsIff | apps/trader/src/pages/SpaceForm.tsx:306-408 | two weight ranges hold exactly when one asset's share lies between the combined bounds |
| FundingGuidance.FundedPairIsSafeIff | packages/shared/src/financial.ts:633-682 | the checker accepts the funded pair exactly when both exact shares are in range |
| FundingGuidance.WethForUsdcIff | apps/trader/src/pages/SpaceForm.tsx:358-378 | for any draft, sound or not: the WETH range throws exactly when WETH must be the whole of a pair that holds USDC, and otherwise contains exactly the positive amounts that put both shares in range |
| FundingGuidance.UsdcForWethIff | apps/trader/src/pages/SpaceForm.tsx:379-398 | the same for the USDC range, which never throws; exactly a draft whose USDC must be the whole of the pair is guided by the bounds from above alone |
| FundingGuidance.UnfitDraftIsGuided | apps/trader/src/pages/SpaceForm.tsx:379-398 | amounts guided to a draft whose USDC must be the whole of the pair, none of which puts both shares in range |
| FundingGuidance.WethGuidanceIsExact | apps/trader/src/pages/SpaceForm.tsx:306-408 | a positive WETH amount is in the guided range exactly when the funded pair is safe |
| FundingGuidance.UsdcGuidanceIsExact | apps/trader/src/pages/SpaceForm.tsx:306-408 | a positive USDC amount is in the guided range exactly when the funded pair is safe |
| AmountIncrement.GreatestCommonDivisor | packages/shared/src/financial.ts:264-273 | the loop computes the gcd of the magnitudes |
| AmountIncrement.GcdDivides | packages/shared/src/financial.ts:264-273 | it divides both |
| AmountIncrement.GcdIsGreatest | packages/shared/src/financial.ts:264-273 | no common divisor exceeds it |
| AmountIncrement.ReducedDivisibility | packages/shared/src/financial.ts:427-448 | d divides x * w exactly when d / gcd(d, w) divides x |
| AmountIncrement.IncrementIff | packages/shared/src/financial.ts:427-448 | the increment exists exactly for a positive price and admissible scales whose product fits |
| AmountIncrement.ExactlyMultiplesConvert | packages/shared/src/financial.ts:388-448 | an amount converts exactly if and only if it is a multiple of the increment |
| AmountIncrement.AdjustmentIsGreatestConvertible | packages/shared/src/financial.ts:450-464 | the adjusted amount is the greatest exactly convertible one not above the request |
| RiskWorker.StepKeepsInv | packages/services/src/risk-worker.ts:110-338 | every step of every tick, crash, exception and clock tick keeps lease fencing, and store and history in agreement |
| RiskWorker.RunKeepsInv | packages/services/src/risk-worker.ts:110-338 | so does every interleaving |
| RiskWorker.ClaimKeeps | packages/services/src/db/repository.ts:1389-1430 | a claim hands out a fresh attempt that no suspended tick has |
| RiskWorker.ContextKeeps | packages/services/src/risk-worker.ts:136-231 | the stored workflow is closed only for a reason that really ended it |
| RiskWorkerSafety.SentWasPersisted | packages/services/src/risk-worker.ts:278-318 | whatever is sent is the persisted certificate, closed by no event since |
| RiskWorkerSafety.OpenUntilClosed | packages/services/src/risk-worker.ts:136-231 | an open certificate stays the persisted one until a justified closing |
| RiskWorkerSafety.DifferentSendsAreSeparated | packages/services/src/risk-worker.ts:110-338 | two different certificates are sent only with a justified closing of the first in between |
| RiskWorkerSafety.ReplacedOnlyAfterClosing | packages/services/src/risk-worker.ts:110-338 | a certificate is replaced, or another signed under the lease, only after a justified closing |
| RiskWorkerSafety.FencedTickOnlySigns | packages/services/src/risk-worker.ts:125-128 | a tick without the lease changes neither store nor job and can at most sign |
| RiskWorkerSafety.StaleTickCanSign | packages/services/src/risk-worker.ts:270-277 | a reachable run in which a tick without the lease signs a second certificate of an open nonce |
| RiskWorkerSafety.RowTellsOpenness | packages/services/src/risk-worker.ts:136-338 | at every moment of every run the certificate is open exactly when the stored row is signed, or submitted without the block hash a finalization leaves |
| RiskWorkerSafety.SignsOverOpenIff | packages/services/src/risk-worker.ts:270-277 | a granted tick signs over an open certificate exactly when the row stored at that moment is open, and then it has lost its lease |
| RiskWorkerSafety.SignaturesAreOrderlyIff | packages/services/src/risk-worker.ts:110-338 | every signature of a run is over a closed certificate exactly when every signature without the lease is |
| RiskWorkerAuthority.SignedAndSentUnderAuthority | packages/services/src/risk-worker.ts:270-318 | for every certificate a run signs or sends, the last registry answer its tick was given before the grant authorizes exactly that certificate; for a send it came after the row was read or stored, and the row is still stored |
| RiskWorkerAuthority.SendGrantIff | packages/services/src/risk-worker.ts:299-305 | a lease holder about to send goes on exactly when the registry still authorizes the certificate |
| RiskWorkerAuthority.SigningGrantIff | packages/services/src/risk-worker.ts:267-273 | so does one about to sign |
| RiskWorkerTicks.ReadingDecides | packages/services/src/risk-worker.ts:136-232 | from the registry's first answer: exactly when a tick evaluates, awaits a receipt, submits or ends, and the state it leaves the row in |
| RiskWorkerTicks.ReceiptDecides | packages/services/src/risk-worker.ts:176-196 | without a receipt the row waits as submitted |
| RiskWorkerTicks.CanonicalDecides | packages/services/src/risk-worker.ts:176-196 | so it does when the receipt's block is not canonical |
| RiskWorkerTicks.FinalityDecides | packages/services/src/risk-worker.ts:197-222 | the row becomes active or failed exactly on a finalized, still canonical receipt, by its success and with its block hash; renewal starts exactly within the lead |
| RiskWorkerTicks.BuildingDecides | packages/services/src/risk-worker.ts:243-266 | a new certificate names the registry's authority and next nonce and ends with the policy or its lifetime |
| RiskWorkerTicks.RefusalsEnd | packages/services/src/risk-worker.ts:233-318 | a missing evaluation or hash ends the tick with nothing changed; an unusable signature is stored first |
| RiskWorkerTicks.ThrowEnds | packages/services/src/risk-worker.ts:321-338 | a failed call ends its tick and, exactly when that tick holds the lease, gives the job back; nothing else changes |
| RiskWorkerTicks.CrashLeavesLease | packages/services/src/db/repository.ts:1389-1430 | the lease of a crashed tick stands until it runs out, and then the job can be claimed |
| RiskWorkerTicks.UnhinderedTick | packages/services/src/risk-worker.ts:232-325 | a tick that is refused nothing signs, stores, sends and records exactly the certificate it built, and gives its lease back |
| RiskWorkerTicks.JobDecides | packages/services/src/db/repository.ts:1389-1460 | the job changes only by a claim that is due or by the end of the tick that holds it |
| RiskWorkerTicks.ClaimDecides | packages/services/src/db/repository.ts:1389-1430 | a job is given to a new tick exactly when it is due |
| RiskWorkerTicks.LeaseIsExclusive | packages/services/src/db/repository.ts:1389-1460 | over any run a lease that its own tick does not give back stands until it runs out |
| RiskWorkerRows.RunCarries | packages/services/src/risk-worker.ts:232-286 | every certificate a run stores or carries was built by one of its steps |
| RiskWorkerRows.UnreadableRowIff | packages/services/src/risk-worker.ts:252-286 | a stored row cannot be read back exactly when its certificate was built after the policy had run out, or without a lifetime |
| RiskWorkerRows.OutlivingPoliciesStayReadable | packages/services/src/risk-worker.ts:232-286 | a run whose policy answers always outlive the clock never stores an unreadable row |
| RiskWorkerRows.RefusingWalletsStayReadable | packages/wallet/src/index.ts:319-345 | neither does one whose wallet signs only certificates that outlive their issue |
| RiskWorkerRows.PoisonedReachable | packages/services/src/risk-worker.ts:252-286 | a run that stores one |
| RiskWorkerRows.ClosableIffReadable | packages/services/src/risk-worker.ts:139-152 | from an idle worker the stored certificate can still be closed exactly when its row can be read back |
| RiskWorkerRows.PoisonedForever | packages/services/src/risk-worker.ts:139-140 | once the lease holder is not past reading it, an unreadable row is never repaired, replaced or closed; at most a tick without the lease signs |
| RiskWorkerExpiry.RunTakesUp | packages/services/src/risk-worker.ts:139-157 | every certificate a tick has in hand to sign or send, unless it never outlived its issue, was read or built by that attempt before it expired |
| RiskWorkerExpiry.SentWasUnexpired | packages/services/src/risk-worker.ts:278-318 | so was every certificate about to be sent |
| RiskWorkerExpiry.ExpiredCanBeSent | packages/services/src/risk-worker.ts:278-318 | a reachable run that sends a certificate after its expiry |
| ChainHistory.EventsExtend | packages/services/src/db/repository.ts:3419-3464 | upserting the missing blocks' logs extends the index of a prefix to the longer prefix |
| ChainHistory.RollbackIsFaithful | packages/services/src/db/repository.ts:3830-3918 | deleting everything above a block leaves the index of the shorter history |
| ChainHistory.IndexedEventsAreLogs | packages/services/src/db/repository.ts:3419-3464 | every indexed event is a log of the history |
| ChainHistory.CanonicalLogsAreIndexed | packages/services/src/db/repository.ts:3419-3464 | every log of the history is indexed |
| ChainHistory.SortedLogsAreInOrder | packages/services/src/indexer.ts:214-222 | sorting the logs of a range restores the chain order, whatever order they were returned in |
| Sorting.SortRestores | packages/services/src/indexer.ts:214-222 | sorting records with distinct keys gives their one ordering |
| Indexer.Repository.RollbackToBlock | packages/services/src/db/repository.ts:3830-3918 | events and headers above the ancestor go, the checkpoint moves to it or is cleared |
| Indexer.ChainEventIndexer.Ingest | packages/services/src/indexer.ts:72-95 | logs are upserted or marked removed in order and counted, and the checkpoint moves to the last one kept |
| Indexer.IngestedIff | packages/services/src/db/repository.ts:3419-3488 | for any logs and any event: the last log of it that was not removed is stored, marked exactly when a later one removed it; removals alone mark a row and never add one |
| Indexer.ChainEventIndexer.FetchHeaders | packages/services/src/indexer.ts:173-187 | the canonical headers of the range, or a stop at a missing block |
| Indexer.ChainEventIndexer.ValidateLogs | packages/services/src/indexer.ts:189-212 | accepts exactly logs of this chain and contract that decode, lie in range and carry the fetched header's hash |
| Indexer.ChainEventIndexer.IndexRange | packages/services/src/indexer.ts:160-243 | on a settled source the store becomes the index of the longer prefix and the answer counts its logs; on any source the store stays consistent and a failure writes nothing |
| Indexer.ChainEventIndexer.Store | packages/services/src/indexer.ts:213-243 | headers are written, the sorted logs ingested, and the checkpoint moved to the last header |
| Indexer.ChainEventIndexer.RollBack | packages/services/src/indexer.ts:119-154 | the store becomes the index of the part that is still canonical |
| Indexer.ChainEventIndexer.FindAncestor | packages/services/src/indexer.ts:119-146 | the block found is retained with the hash reported, and on a settled source the highest common one |
| Indexer.RangeIsConsistent | packages/services/src/indexer.ts:160-243 | storing a validated range on top of the checkpoint keeps headers gapless and every event in a block with a retained header |
| Indexer.ChainEventIndexer.Sync | packages/services/src/indexer.ts:97-243 | ends for every source and leaves the store consistent; on a settled one fails exactly when the checkpoint lies beyond the chain, and otherwise leaves the specified history and answers the logs added, none removed, and the last indexed block |
| Indexer.ChainEventIndexer.SyncAll | packages/services/src/indexer.ts:97-243 | over any sequence of settled sources the store ends as the index of the history the run specifies, and each call answers what the steps specify |
| Indexer.SyncEndsCanonical | packages/services/src/indexer.ts:97-243 | that history is canonical, reaches the confirmed tip, drops no canonical block, and syncing again changes nothing |
| Indexer.RunsIndexRealHistory | packages/services/src/indexer.ts:97-243 | over any run of syncs and reorganizations the index is of a prefix of some chain that was shown |
| Indexer.RunEndsWithCanonicalEvents | packages/services/src/indexer.ts:97-243 | after a successful last sync the projected events are exactly the canonical logs up to the checkpoint |
| Pagination.CheckedRowIsTrustworthy | packages/graph/src/index.ts:302-351 | a row passes exactly when it is indexed, recent, canonical and observed in time |
| Pagination.CheckRequestIff | packages/graph/src/index.ts:272-281 | a query is admitted exactly on the configured chain, for this source, at a finality block in range |
| Pagination.CheckMetaIff | packages/graph/src/index.ts:296-323 | a page is admitted exactly from the configured deployment, without errors, at a recent, final and canonical block |
| Pagination.CheckRowIff | packages/graph/src/index.ts:330-351 | a row is admitted exactly when its own block is recent, final and canonical and it was observed in time |
| Pagination.NewRowsAreFresh | packages/graph/src/index.ts:325-329 | the rows taken from a page are distinct and are all the page has beyond those seen |
| Pagination.TakePage | packages/graph/src/index.ts:325-367 | the inner loop succeeds exactly when every new row passes, and then records each once as FINAL |
| Pagination.WalkPages | packages/graph/src/index.ts:280-374 | the page loop ends for any server over finitely many identifiers and is complete on a faithful one |
| Pagination.SortKeepsSound | packages/graph/src/index.ts:375 | the final sort keeps every observation, and no two with one identifier |
| Pagination.FetchObservations | packages/graph/src/index.ts:268-376 | sound and in the locale's order on any server; on a faithful one succeeds exactly when every page passes and returns every row once |
| Decimals.ParseIff | packages/shared/src/presentation.ts:72-93 | which strings parse, and that the number is the written one scaled without rounding |
| Decimals.MatchIff | packages/shared/src/presentation.ts:13 | the pattern accepts exactly whole digits with an optional nonempty fraction, and splits them back |
| Decimals.ParseOfFormat | packages/shared/src/presentation.ts:37-93 | parsing a formatted integer gives it back exactly when it is a uint256; negatives are refused |
| Decimals.FormatOfParse | packages/shared/src/presentation.ts:37-93 | formatting a parsed string drops exactly its redundant fraction zeros |
| Decimals.GroupingIsByThrees | packages/shared/src/presentation.ts:56-66 | commas stand exactly at every fourth place from the right, never in front |
| Decimals.UngroupedIsPlain | packages/shared/src/presentation.ts:56-66 | removing the commas gives back the plain form |
| AbiWords.Slot | packages/shared/src/risk.ts:17-28 | the byte loop writes the big-endian word, and refuses exactly what is not a uint256 |
| AbiWords.AddressSlot | packages/shared/src/risk.ts:30-37 | the parsed bytes stand right-aligned in a zeroed word |
| AbiWords.Join | packages/shared/src/risk.ts:39-43 | the words stand one after another |
| AbiWords.WordReadsBack | packages/shared/src/risk.ts:17-28 | a word reads back as its number |
| AbiWords.EncodersAgree | packages/shared/src/price.ts:144-151 | padded hex text and the byte loop write the same word |
| AbiWords.TextAddressAgrees | packages/shared/src/price.ts:135-142 | both address encoders write the same word |
| AbiWords.AddressBytesIff | packages/shared/src/risk.ts:30-37 | two addresses have the same bytes exactly when they differ in case only |
| AbiEncoding.BoundsRoundTrip | packages/shared/src/risk.ts:289-304 | decoding the hashed bytes by the ABI's offsets gives back every field of every bound |
| AbiEncoding.BoundsCommitmentIff | packages/shared/src/risk.ts:289-304 | two lists of bounds are hashed from the same bytes exactly when they differ at most in address case |
| AbiEncoding.PortfolioRoundTrip | packages/shared/src/price.ts:159-220 | following the two offsets gives back the tokens and every snapshot |
| AbiEncoding.PortfolioCommitmentIff | packages/shared/src/price.ts:199-220 | two snapshot lists are hashed from the same bytes exactly when they differ at most in hex case |

## Left out

- FeeGrowth.TotalFeeGrowth: one unit per unit is stated up to gentle fills; beyond them it can fail (`LargeFillJumps`), exactly when `LipschitzIff` says.
- FeeTelescope.SplitFeesAreAdditive: stated up to a limit; beyond it splits can lose more (`CoarseSplitLosesTwo`), exactly when `SplitIsFairIff` says.
- Settlement.SearchFindsGreatestFill: for gentle ranges, baselines on which no fee product overflows, and NAV with room for the fee below 2^256.
- FundingGuidance.WethGuidanceIsExact: raw amounts and weights are integers; the form's parsing of typed decimals and percentages is not modelled, nor its caught exceptions.
- Indexer.ChainEventIndexer.Sync: its result is stated for a source that settles on one chain before the call; for one that changes during the call only termination, consistency of the store and fencing of failures are.
- Indexer.ChainEventIndexer.ValidateLogs: the chain id, contract and decoding checks are one flag of a log.
- Indexer.ChainEventIndexer.FetchHeaders: block hashes are ideal, so the check of their shape is not modelled.
- Pagination.FetchObservations: the retry of failed queries and the payload hash; identifiers are their rank in the server's order, the locale's order is an arbitrary ranking, and one block hash answer per query is assumed.
- AbiWords.AddressSlot: only for addresses the schema admits; the source also parses malformed text.
- Indexer.RunEndsWithCanonicalEvents: assumes that no transaction and log index repeat across the blocks of one chain; hashes are collision-free.
- Indexer.ChainEventIndexer.FindAncestor: assumes the retained headers reach from block 0 to the checkpoint; databases older than header retention are not covered.
- RiskWorker.StepKeepsInv: the worker's diagnostics fields, audit events and the separate certificate table are not modelled; certificate fields beyond authority, nonce, times and evaluation are opaque.
- Decimals.ParseOfFormat: values are integers; the acceptance of canonical integer strings as input is not modelled.
- Constraints.ValidatePolicy: all its exceptions are one error.
- Token names are taken as already lower-cased; the exception for a blank one, and numbers that are not safe integers, are not modelled.
- Keccak hashes and signatures are opaque; only the bytes hashed are modelled, and capacity epochs carry their digest, which the code turns into text.
- Crashes in the middle of one `ingest` call and rebuilding derived projections.
- `calculateDirectionalCapacity` and `establishDirectionalCapacity`: they repackage the safe fill.
- `computeSettlementPriceSnapshotHash` and `hashRiskCertificate`: fixed lists of the words modelled here.
- `upstream-strategy.ts`, `space-setup.ts`, the watchtower evaluator and the Space mutations of the service.
- React components, wallet prompts, HTTP, RPC adapters, SQLite and schema field shapes.
