# pymarket trading simulations in Dafny

This project models the two trading simulations of `pymarket/algorithms.py`.

**`alg_01`: rebalancing during a crash.** The simulation walks a stock price series and a bond price series together, from the oldest index to the newest. On each step it:

- compounds a stock holding and a bond holding by that step's price ratios;
- adds a fixed contribution to the bond holding on every index divisible by 25;
- tracks the stock price's running maximum and minimum.

Each time the stock price sets a new minimum, it computes the decrease `1 - min/max`. While that decrease strictly exceeds the front entry of a trigger ladder, it sells the paired fraction of the bond holding into stock and pops both entries. The result is the relative change of the total holding.

**`alg_02`: buying on margin during a crash.** This simulation walks one price series the same way. On each new minimum it computes the spread `(max - min) / max`. While the spread exceeds the front trigger, it:

- buys the front buy percentage of the available margin into a margin-stock holding;
- subtracts the whole margin-stock holding from the margin;
- pops the trigger.

Only this decrease side is implemented in the source. The four percentage lists are checked, and the increase-side lists take part in nothing else. The margin rate is never read.

Modules:

- `Common`: error outcomes, the percentage checks, and the conversion of percentages to fractions.
- `Walker`: the running extrema, their reference definition over a suffix of the series, and the decrease from the maximum.
- `Ladder`: how many leading triggers a decrease fires, and what selling a list of fractions in turn leaves.
- `Rebalance`: `alg_01` as specification functions (`Fire`, `Step`, `Run`, `PortfolioChange`) and as imperative methods (`FireLadder`, `Walk`, `Alg01`) proved equal to them.
- `BuyAndHold`: reference definitions for a walk in which the ladder never fires.
- `RebalanceProps`: what `alg_01`'s walk guarantees over many steps.
- `Scenarios`: `alg_01` on concrete inputs.
- `Margin`: `alg_02` as specification functions (`Fire`, `Step`, `Run`, `Simulate`) and as methods (`BuyLadder`, `Alg02`) proved equal to them.
- `MarginProps`: what `alg_02`'s walk guarantees.

The model follows the code as written, including where it differs from what the simulations' doc strings describe:

- **`alg_01`, one-entry ladder.** The trigger ladder's front is read again after every pop. An event that fires every remaining entry therefore reads the front of an empty list and fails. For example, prices 100, 90, 100 with triggers `[5]` and sells `[10]` fail with `EmptyLadder` (`Scenarios.SingleEntryLadderFails`): the 10% decrease fires the only trigger, and the next comparison reads an empty list. The same walk with a two-entry ladder `[5, 50]` / `[10, 10]` returns `1/180` (`Scenarios.TwoEntryLadderChange`).
- **`alg_02`, percent triggers.** The triggers are compared with the fractional spread without being divided by 100. Any trigger of 1 or more never fires.
- **`alg_02`, margin update.** The margin is reduced by the cumulative margin-stock holding, not by the purchase. Two purchases can drive the margin below zero.

Python `assert` failures are reported as `Fail(InvalidParameter)`. An index into an empty list is reported as `Fail(EmptyLadder)`. A division by a zero starting total is reported as `Fail(ZeroDivision)`. `alg_02` returns nothing in the source, so its final local variables (extrema, margin-stock holding, margin, remaining triggers) are the model's outcome.

## Model

| member | source | states |
|---|---|---|
| Common.Normalize | pymarket/algorithms.py:63-64 | each percentage becomes the entry that, times 100, gives it back, at the same position; valid percentages become proper fractions |
| Walker.Start | pymarket/algorithms.py:69-71 | both extrema start at the oldest price: the extrema of that one price |
| Walker.Observe | pymarket/algorithms.py:87-91 | the maximum only rises and the minimum only falls, each to its old value or the new price; the minimum falls exactly on a new minimum; positive extrema stay ordered |
| Walker.MaxOf | pymarket/algorithms.py:87-88 | the running maximum's reference value: an element of the series that bounds every price from above |
| Walker.MinOf | pymarket/algorithms.py:90-91 | the running minimum's reference value: an element of the series that bounds every price from below |
| Walker.ObserveExtends | pymarket/algorithms.py:77-91 | visiting index i after the suffix from i+1 gives the extrema of the suffix from i |
| Walker.ExtremaOfSane | pymarket/algorithms.py:87-91 | the extrema of positive prices satisfy 0 < min <= max |
| Walker.SuffixExtrema | pymarket/algorithms.py:87-91 | walking further back never lowers the maximum nor raises the minimum |
| Walker.Decrease | pymarket/algorithms.py:95 | the decrease lies in [0, 1) and is 0 exactly when min equals max |
| Walker.DecreaseGrows | pymarket/algorithms.py:95 | a lower minimum under a maximum at least as high is a strictly larger decrease |
| Walker.EventDecreasesGrow | pymarket/algorithms.py:90-95 | the decreases computed at successive new-minimum events grow strictly |
| Ladder.Fired | pymarket/algorithms.py:96 | the number of fired triggers is the longest prefix strictly below the decrease; the next trigger is not below it |
| Ladder.FiredMonotone | pymarket/algorithms.py:96 | a larger decrease fires at least as many triggers |
| Ladder.RetainedBounds | pymarket/algorithms.py:97-98 | selling proper fractions in turn keeps a share in (0, 1] |
| Ladder.RemainingIsRetained | pymarket/algorithms.py:97-98 | selling fractions one after another equals scaling by the product of the kept shares |
| Ladder.RemainingBounds | pymarket/algorithms.py:97-98 | selling proper fractions of a non-negative amount leaves between 0 and the amount |
| Rebalance.ValidArguments | pymarket/algorithms.py:53-60 | the argument checks; arguments that pass them convert to two equal-length lists of proper fractions |
| Rebalance.Initial | pymarket/algorithms.py:63-73 | the starting total is the two starting values; with equal-length lists and a positive oldest price the starting state is well formed |
| Rebalance.Fire | pymarket/algorithms.py:96-101 | an event fails with EmptyLadder exactly when it fires every remaining trigger; otherwise it pops the fired count from both lists and keeps the extrema |
| Rebalance.FireNone | pymarket/algorithms.py:96 | an event whose decrease does not exceed the front trigger leaves the state unchanged |
| Rebalance.Sold | pymarket/algorithms.py:97-101 | one firing keeps the total holding and takes the front fraction of the bond holding |
| Rebalance.FireHoldings | pymarket/algorithms.py:96-101 | after an event the bond holding is what selling the fired fractions in turn leaves, and the total holding is unchanged |
| Rebalance.Ratio | pymarket/algorithms.py:78-81 | the step's growth factor is positive and scales the older price to the newer |
| Rebalance.RatioIsQuotient | pymarket/algorithms.py:78-81 | the growth factor is the quotient of the two prices |
| Rebalance.Moved | pymarket/algorithms.py:77-91 | the compounding part of a step keeps the ladder and updates the extrema with the stock price |
| Rebalance.Step | pymarket/algorithms.py:77-101 | a step fails only on a new minimum, with EmptyLadder; otherwise the extrema take the stock price |
| Rebalance.Run | pymarket/algorithms.py:77-101 | the walk keeps sane extrema and equal-length lists, and fails only with EmptyLadder |
| Rebalance.Simulate | pymarket/algorithms.py:63-101 | the walk from the initial state either ends in a well-formed state or fails with EmptyLadder |
| Rebalance.PortfolioChange | pymarket/algorithms.py:52-106 | InvalidParameter exactly when a check fails; ZeroDivision only for a zero starting total; a result only for a non-zero one |
| Rebalance.FireLadder | pymarket/algorithms.py:96-101 | the firing loop returns exactly the ladder event's outcome |
| Rebalance.Walk | pymarket/algorithms.py:77-101 | the stepping loop ends exactly in the walk's outcome |
| Rebalance.Alg01 | pymarket/algorithms.py:4-106 | the procedure returns exactly PortfolioChange |
| RebalanceProps.RunExtrema | pymarket/algorithms.py:87-91 | a completed walk ends with the largest and smallest stock price |
| RebalanceProps.StepLadder | pymarket/algorithms.py:96-101 | a step pops the same number of entries from both lists |
| RebalanceProps.RunLadder | pymarket/algorithms.py:77-101 | the walk's final lists are equal-length suffixes of its starting lists |
| RebalanceProps.FireKeepsHoldings | pymarket/algorithms.py:97-99 | an event keeps both holdings non-negative |
| RebalanceProps.StepKeepsHoldings | pymarket/algorithms.py:78-99 | a step with a non-negative contribution keeps both holdings non-negative |
| RebalanceProps.RunKeepsHoldings | pymarket/algorithms.py:77-101 | the whole walk keeps both holdings non-negative |
| RebalanceProps.StepWithoutFiring | pymarket/algorithms.py:77-101 | a step that pops nothing is the compounding alone |
| RebalanceProps.ContributionSpacing | pymarket/algorithms.py:84 | contributions fall on index 0 and then every 25 indices, with none in between |
| RebalanceProps.ContributionsCount | pymarket/algorithms.py:84-85 | the indices i down to 0 receive (i + 25) / 25 contributions |
| RebalanceProps.ConstantBondAdded | pymarket/algorithms.py:80-85 | with a constant bond price the contributions total the contribution times their number |
| RebalanceProps.RatioChain | pymarket/algorithms.py:78-81 | growth factors compose along the series |
| RebalanceProps.RunWithoutFiring | pymarket/algorithms.py:77-101 | a walk that pops nothing is the buy-and-hold walk |
| RebalanceProps.CompoundedValue | pymarket/algorithms.py:78-79 | compounding by every step ratio is scaling by the ratio from the first visited price to the newest |
| RebalanceProps.HoldCompounds | pymarket/algorithms.py:78-79 | the buy-and-hold stock holding is its compounded start value |
| RebalanceProps.HoldStock | pymarket/algorithms.py:78-79 | the buy-and-hold stock holding ends at its start value times the whole-walk stock ratio |
| RebalanceProps.HoldAccrues | pymarket/algorithms.py:80-85 | the buy-and-hold bond holding is its accrued start value |
| RebalanceProps.AccruedValue | pymarket/algorithms.py:80-85 | accruing a bond amount scales it by the whole-walk bond ratio and adds every contribution grown from its index |
| RebalanceProps.HoldBond | pymarket/algorithms.py:80-85 | the buy-and-hold bond holding in closed form |
| RebalanceProps.RunQuiet | pymarket/algorithms.py:90-96 | when no later price undercuts the running minimum the walk succeeds and pops nothing |
| RebalanceProps.RunOnEmptyLadder | pymarket/algorithms.py:90-96 | with an exhausted ladder the walk fails exactly when a later price sets a new minimum |
| RebalanceProps.QuietRun | pymarket/algorithms.py:77-101 | a walk with no new minimum ends with the buy-and-hold total |
| RebalanceProps.QuietIsHold | pymarket/algorithms.py:77-101 | a walk with no new minimum is the buy-and-hold walk |
| RebalanceProps.HoldTotal | pymarket/algorithms.py:78-85 | the buy-and-hold walk's final total is the compounded stock plus the accrued bond |
| RebalanceProps.HeldTotalValue | pymarket/algorithms.py:78-85 | that total in closed form: both start values grown over the whole walk plus the grown contributions |
| RebalanceProps.QuietMarketChange | pymarket/algorithms.py:73-104 | when no price falls below the oldest one, the result is the buy-and-hold change |
| RebalanceProps.SimulateWithoutFiring | pymarket/algorithms.py:73-101 | a walk that completes with every trigger still in place ends with the stock holding at its start value times the newest stock price over the oldest, and the bond holding at its start value accrued over the bond series |
| RebalanceProps.HoldWhole | pymarket/algorithms.py:77-85 | the buy-and-hold walk over the whole series ends with those two holdings |
| RebalanceProps.CompoundedWhole | pymarket/algorithms.py:78-79 | compounding over the whole walk scales by the newest price over the oldest |
| RebalanceProps.AccruedGrowth | pymarket/algorithms.py:80-85 | an accrued bond amount is its start value times the oldest price over the price one past the last visited index, plus every contribution grown from its index |
| RebalanceProps.EmptyLadderFails | pymarket/algorithms.py:90-96 | with no ladder the procedure fails with EmptyLadder exactly when some price falls below the oldest one |
| RebalanceProps.SimulateExtrema | pymarket/algorithms.py:87-91 | a completed walk ends with the series' largest and smallest stock price |
| RebalanceProps.SimulateLadder | pymarket/algorithms.py:63-101 | a completed walk ends with the converted ladder minus the same k leading entries of both lists |
| RebalanceProps.SimulateHoldings | pymarket/algorithms.py:77-101 | non-negative starting holdings and contribution give non-negative final holdings |
| Scenarios.SingleEntryLadderFails | pymarket/algorithms.py:96-101 | prices 100, 90, 100 with the ladder [5]/[10] fail with EmptyLadder |
| Scenarios.TwoEntryLadderChange | pymarket/algorithms.py:77-104 | the same prices with the ladder [5, 50]/[10, 10] give a change of 1/180 |
| Scenarios.FiftyStepContributions | pymarket/algorithms.py:84-85 | fifty prices at a constant bond price receive exactly two contributions |
| Margin.Spread | pymarket/algorithms.py:202 | alg_02's spread equals the decrease 1 - min/max |
| Margin.ValidArguments | pymarket/algorithms.py:174-177 | the four percentage checks; buy percentages that pass them are proper fractions once divided by 100 |
| Margin.Initial | pymarket/algorithms.py:180-190 | both extrema start at the oldest price; the margin-stock holding starts at 0 beside the whole margin; the triggers are the given ones |
| Margin.Bought | pymarket/algorithms.py:204-206 | one purchase adds the buy percentage of the current margin to the margin-stock holding; the new margin is the old margin minus the new holding; one trigger is popped |
| Margin.Purchases | pymarket/algorithms.py:203-206 | a number of purchases in turn pops that many triggers and keeps the extrema |
| Margin.Fire | pymarket/algorithms.py:203-206 | an event fails with EmptyLadder exactly when it fires every remaining trigger or must buy from an empty buy list; otherwise it pops the fired count and keeps the extrema |
| Margin.Step | pymarket/algorithms.py:193-206 | a step fails only on a new minimum, with EmptyLadder; otherwise the extrema take the price |
| Margin.Run | pymarket/algorithms.py:193-206 | the walk keeps sane extrema and fails only with EmptyLadder |
| Margin.Simulate | pymarket/algorithms.py:173-206 | InvalidParameter exactly when a percentage check fails; no other failure but EmptyLadder |
| Margin.BuyLadder | pymarket/algorithms.py:203-206 | the buying loop returns exactly the ladder event's outcome |
| Margin.Alg02 | pymarket/algorithms.py:119-206 | the procedure ends exactly in Simulate's outcome |
| MarginProps.StepWithoutLow | pymarket/algorithms.py:193-198 | a step whose price sets no new minimum succeeds and only moves the extrema: the margin-stock holding, the margin and the triggers stay as they were |
| MarginProps.RunExtrema | pymarket/algorithms.py:193-198 | a completed walk ends with the largest and smallest price |
| MarginProps.StepPops | pymarket/algorithms.py:203-206 | a step pops leading triggers only |
| MarginProps.RunLadder | pymarket/algorithms.py:193-206 | the walk's final triggers are a suffix of its starting triggers |
| MarginProps.HighTriggerHolds | pymarket/algorithms.py:202-203 | a front trigger of 1 or more never fires: the event leaves the account unchanged |
| MarginProps.StepHigh | pymarket/algorithms.py:193-203 | with such a trigger, a step only updates the extrema |
| MarginProps.RunHigh | pymarket/algorithms.py:193-206 | with such a trigger, the walk never buys |
| MarginProps.PercentTriggersNeverBuy | pymarket/algorithms.py:202-203 | with a first trigger of 1 percent or more, the procedure ends with no margin-stock, the whole margin and the triggers as given |
| MarginProps.RunOnEmptyLadder | pymarket/algorithms.py:197-203 | with no triggers the walk fails exactly when a later price sets a new minimum |
| MarginProps.EmptyTriggersFail | pymarket/algorithms.py:197-203 | with no triggers the procedure fails with EmptyLadder exactly when some price falls below the oldest one |
| MarginProps.SimulateOutcome | pymarket/algorithms.py:180-206 | a completed walk ends with the series' extrema and a suffix of the given triggers |
| MarginProps.IncreaseSideInert | pymarket/algorithms.py:119-206 | the margin rate, which is never read, and valid increase-side lists do not affect the outcome |
| MarginProps.EventSpreadsGrow | pymarket/algorithms.py:197-202 | the spreads at successive new-minimum events grow strictly |
| MarginProps.FirePurchases | pymarket/algorithms.py:203-206 | a successful event makes one purchase with the front buy percentage per fired trigger; with no buy percentages it changes nothing |
| MarginProps.FirstPurchase | pymarket/algorithms.py:204-205 | the first purchase from an empty holding moves the buy percentage of the margin into the holding and leaves the rest as margin |
| MarginProps.MarginOverdrawn | pymarket/algorithms.py:204-205 | margin 100, spread 0.2, triggers 0.05, 0.1, 0.5 and buy 50 end with margin-stock 75 and margin -25 |

## Left out

- `pymarket/api.py` and everything outside the two simulations are not part of this model: data loading and pandas series handling.
- Floating point: prices, holdings and percentages are exact reals, with no rounding or overflow.
- Rebalance.PortfolioChange: a zero starting total is reported as `ZeroDivision`. When the walk has run at least one step, the source's total is a numpy scalar, and its division by zero yields an infinite or undefined value rather than an exception.
- Series indexing: the source reads the oldest price and `alg_01`'s step ratios with `series[i]`, and the extrema comparisons with `series.iloc[i]`. On the date-indexed series that `pymarket/api.py` builds, `series[i]` with an integer falls back to the position, so both read the same prices. On a series with an integer index, `series[i]` reads by label, and the two agree only when the labels are `0 … s-1`. The model reads every price by position.
- Zero, negative or missing prices: every member requires at least one price, and every price positive. The source also runs on zero and negative prices, and the model does not cover those runs:
  - `alg_01` divides by the prices at indices 1 to s-1 (pymarket/algorithms.py:78, 80). A zero there gives numpy's infinity or NaN, not an exception. The newest price, at index 0, is only ever a numerator, so a zero there makes the last step ratio 0.
  - The decrease `1 - min/max` (line 95) and the spread `(max - min) / max` (line 202) divide by the running maximum. It starts at the oldest price (lines 70, 186) and never falls, and it is divided by only when a price sets a new minimum, which lies below it. With non-negative prices neither simulation divides by zero there; for example, `alg_02` on prices 0, 100, newest first, computes a spread of 1.
  - On an empty series each simulation fails inside pandas when it reads the oldest price (lines 70, 186), but only after the argument checks (lines 53-60, 174-177) pass. An empty stock series beside a non-empty bond series fails the length check at line 60 first, with `InvalidParameter`. The model requires at least one price, so it leaves out that path as well.
- Python's `-O` flag, which removes the `assert` checks, is not modelled; the checks always run.
- `alg_02`'s increase side and the "money owed" update are not implemented in the source. Its increase-side lists are only checked, and its margin rate is never read, not even checked; the model does the same (`MarginProps.IncreaseSideInert`).
- `alg_02`'s return value: the source returns nothing; the model's outcome is the final state.
- Aliasing: both simulations pop from a private list (`alg_01` rebinds its parameters to converted copies; `alg_02` copies the trigger list and never changes the buy list). The model passes lists by value, so callers' lists are unchanged in both.
- Margin.Fire: reading the front of an empty buy list is reported as `EmptyLadder`, the same outcome as an empty trigger list; the source raises an index error in both cases.
