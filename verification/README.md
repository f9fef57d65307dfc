# trp: point-in-time equity research, verified

A Dafny model of the parts of `trp` on which its two promises rest: that no result ever uses data
from the future, and that every penny is accounted for. Each component is one module (two where a
mutable object has a specification of its own):

- **Backtest engine and ledger.** `Markets` and `MarketIndex` (the dataset and its lookups), `Costs`,
  `Affordable`, `Ledger`, `Trading`, `Engine` (the daily state machine as a specification),
  `EngineLoop` (the engine object and its session loop, proved against it), `Lookups`, `ActionEffects`
  and `Rebalancing` (what lookups, corporate actions and rebalances come to), and `EngineSafety`,
  `Attribution`, `NoLookAhead`, `LateActions` and `Unpublished` (what holds of every run).
- **Adjustment factors and window slicing.** `Context`, `Adjustments`, `Slicing`, `Suspensions`.
- **Bitemporal security master.** `Ranges`, `Records`, `Masters`, `ConflictScan`, `MasterCheck`,
  `Changes`, `PointInTime`, `EventEffects`.
- **Position limits.** `Weighting`.
- **Data repair and membership.** `RenameChains`, `UnitRepair`, `IndexHistory`, `Universe`,
  `UniverseQueries`, `Revisions`.
- **Fast forms and definitions.** `Calendar`, `Rolling`, `Drawdown`.

`Domain`, `Arithmetic`, `Sorting` and `Sums` hold shared types and facts. `Decimal`, `Fraction` and
`float` amounts are exact reals; dates are day numbers, except in `Calendar`, where months matter;
instants are microseconds; dictionaries are maps; exceptions are `Result` or `Outcome` values. Code
that works step by step is a method with a loop, or a class whose methods update its fields, proved
against a function that states its meaning; the theorems are then about that function.

## Where the code and its documentation differ

The code is modelled as written. Each difference below has a theorem that says exactly when the
documented promise holds, and where it can fail, a concrete case.

- `_affordable_shares` is documented as the largest affordable count. It is, for every cash balance
  and request, exactly when impact does not grow with the order (`Affordable.LargestExactlyWhen`,
  `Affordable.RisingImpactUndershoots`).
- The slicer drops a security over an action nobody knows yet when that action sits in a bar gap
  (`Context.UnpublishedInvisibleExactlyWhen`, `Context.UnpublishedActionCanSuspend`;
  `Unpublished.UnpublishedLeavesRunsAlike` for whole runs).
- A knowable action is documented to apply on its ex-date or on the first day it is known. It reaches
  the ledger exactly when that day is a session (`LateActions.AppliedExactlyWhen`); otherwise it never
  does (`NoLookAhead.OffSessionActionNeverApplies`), as a dividend on ten held shares, ex on a session
  and published between two, shows (`LateActions.LateDividendIsNeverPaid`).
- `membership_changes` lists additions before removals on one day, so folding it loses a member that
  resumed on the day it left (`Universe.ChangesReproduceExactlyWhen`, `Universe.TouchingSpellsDoNotReplay`).
- The position limits divide by zero on shifted scores exactly when the cap leaves only zero weights
  free (`Weighting.ApplyLimits`, `Weighting.ShiftingCanDivideByZero`).
- The identifier map is documented to have no conflicts. The scan keeps a record and drops those that
  run into it, in order of their start, so it misses a conflict exactly when it is silent and a record it
  dropped shares a date with a kept one that disagrees (`ConflictScan.SearchesAreRightExactlyWhen`).
  What one security repeats can hide nothing exactly when the records kept cover every date of those
  dropped (`ConflictScan.RepeatsHideNoSecurityExactlyWhen`, `ConflictScan.RepeatsHideNoValueExactlyWhen`);
  for two overlapping records, exactly when the later-starting one ends no later
  (`ConflictScan.PairHidesNothingExactlyWhen`). Masters that pass the whole check with a conflict in them
  are given for both searches (`ConflictScan.TwoSecuritiesCanShareAValue`,
  `ConflictScan.OneSecurityCanHoldTwoValues`).
- A calendar-month rolling window needs at least one month (`Rolling.RollingMetrics`); nothing in its
  specification object asks for that.
- Re-classifying an accepted batch appends nothing exactly when no key is observed with two values in
  it (`Revisions.ReclassifyingAppendsNothingExactlyWhen`).
- A ledger event refused for lack of cash leaves cash and positions already moved, and that is exactly
  when the log stops accounting for a book it accounted for (`Ledger.Portfolio.RecordEvent`).

## Model

| member | source | states |
|---|---|---|
| Markets.LastPrintMeaning | src/trp/backtest/engine.py:101-108 | the close found on or before a day is a real bar of the security no later than the day, nothing of the security lies between it and the day, and none is found exactly when there is no bar by then |
| Markets.LookupsAgree | src/trp/backtest/engine.py:101-143 | last close and trailing median traded value cannot tell apart datasets that agree up to the day asked about |
| Markets.BarsForAgree | src/trp/backtest/engine.py:110-122 | neither can the per-security date slices |
| Markets.EffectiveOnAgrees | src/trp/backtest/engine.py:187-190 | neither can the set of actions that take effect on a day, ex-date or publication day, whichever is later |
| Lookups.MedianIsMiddle | src/trp/backtest/engine.py:143 | the median is midway between the lower and the upper middle value, each with at least its share of the values on either side; at least half of all values are at most the median and at least half at least it |
| Lookups.TrailingLiquidity | src/trp/backtest/engine.py:130-143 | trailing liquidity is the median traded value of the security's last bars by the day, up to 60 of them, and unknown exactly when there is none |
| Lookups.PricedExactlyWhen | src/trp/backtest/context.py:109-117 | a context prices a security if and only if it has a bar within fifteen days of the clock, and then at the close of a latest one |
| MarketIndex.OnePositionForAll | src/trp/backtest/engine.py:78-97 | a position found in the list of close dates is right for the closes, the traded values and the bars, although the three are sorted by different keys |
| MarketIndex.MarketData.constructor | src/trp/backtest/engine.py:68-99 | the indexes built in one pass hold each security's sorted series, and lists parallel to them |
| MarketIndex.MarketData.CloseOnOrBefore | src/trp/backtest/engine.py:101-108 | the indexed lookup is the defined last print |
| MarketIndex.MarketData.MedianTraded | src/trp/backtest/engine.py:130-143 | the window cut from the traded values with a position among the close dates gives the defined median |
| MarketIndex.MarketData.BarsForAll | src/trp/backtest/engine.py:110-122 | slices security by security, in id order, each exactly the bars within the two dates |
| MarketIndex.MarketData.ActionsForAll | src/trp/backtest/engine.py:124-128 | every action of the listed securities, in id order and then input order |
| Costs.CostsAreNonNegative | src/trp/backtest/costs.py:69-93 | no cost component is a rebate and every trade pays at least the commission floor |
| Costs.SidesDifferByStamp | src/trp/backtest/costs.py:80-93 | buying and selling one amount differ by the stamp duty alone, which sales and exempt securities never pay, and together pay the whole spread |
| Affordable.FindAffordableShares | src/trp/backtest/engine.py:436-452 | the shrinking loop ends, never exceeds the request, and what it returns fits in the cash |
| Affordable.AffordableSharesFit | src/trp/backtest/engine.py:436-452 | the same of the count by definition, for every balance, request and cost setting |
| Affordable.LargestExactlyWhen | src/trp/backtest/engine.py:444-452 | the count is the largest affordable one for every balance and request if and only if there is no impact coefficient or no liquidity evidence |
| Affordable.RisingImpactUndershoots | src/trp/backtest/costs.py:88-92 | whenever impact grows with size, a balance and request are exhibited for which a larger count was affordable |
| Affordable.OneShrinkSuffices | src/trp/backtest/engine.py:444-452 | whatever impact does, the answer is the first shrink of the request in the proportion of cash to outlay, whenever that count still pays a proportional commission |
| Ledger.RecordKeepsSound | src/trp/backtest/portfolio.py:96-109 | a recorded event keeps the book sound: log replays to the holdings, quantities positive, never overdrawn or short at any point of the log |
| Ledger.RecordValue | src/trp/backtest/portfolio.py:86-109 | recording moves value at any marks by exactly the event's cash and its quantity at its own mark |
| Ledger.SplitConservesValue | src/trp/backtest/portfolio.py:162-192 | whole shares and cash in lieu together are worth exactly the held count times new over old at the post-split mark |
| Ledger.ReplayLog | src/trp/backtest/portfolio.py:224-237 | the replay loop computes the cash and positions the log stands for |
| Ledger.Portfolio.RecordEvent | src/trp/backtest/portfolio.py:96-109 | the object moves as specified; a short event changes nothing, one refused for cash has moved cash and positions but not the log, and a sound book stays sound if and only if the event is not refused for cash |
| Ledger.Portfolio.constructor | src/trp/backtest/portfolio.py:62-72 | the opening deposit is the first event of the log |
| Ledger.Portfolio.Buy | src/trp/backtest/portfolio.py:111-126 | a purchase on the object is the specified one, errors included |
| Ledger.Portfolio.Sell | src/trp/backtest/portfolio.py:128-143 | a sale on the object is the specified one, errors included |
| Ledger.Portfolio.Credit | src/trp/backtest/portfolio.py:145-160 | a dividend is credited on the held count, and not at all without a holding |
| Ledger.Portfolio.Split | src/trp/backtest/portfolio.py:162-192 | a split moves the holding to the whole part and pays the fraction in cash |
| Ledger.Portfolio.Resolve | src/trp/backtest/portfolio.py:194-221 | a delisting closes the holding for its proceeds, or writes it off |
| Ledger.Portfolio.Value | src/trp/backtest/portfolio.py:86-94 | cash plus each holding at its mark, in whatever order they are added, or the missing mark |
| Trading.OrdersNamedOnce | src/trp/backtest/engine.py:383-408 | every security with an order, and no other, comes up exactly once among the fills |
| Trading.SalesByProceeds | src/trp/backtest/engine.py:386-404 | sales come by falling proceeds net of costs, ties by id, so those that raise cash precede those that cost it |
| Trading.FillIsSafe | src/trp/backtest/engine.py:409-434 | one fill never fails, appends at most one trade at the day's close charged by the cost model, loses exactly its costs, and always completes a sale whose proceeds cover its costs |
| Trading.RebalanceConservesValue | src/trp/backtest/engine.py:375-434 | for any non-negative targets value at the day's marks falls by exactly the recorded costs, each holding ends between its old count and its target, every sale whose proceeds cover its costs reaches its target, and names without a same-day print are untouched |
| Trading.FillOrder | src/trp/backtest/engine.py:409-434 | one order on the ledger object is the specified fill |
| Trading.ExecuteTargets | src/trp/backtest/engine.py:375-434 | the loop over ordered sells and buys is the specified execution |
| Rebalancing.SalesThenPurchases | src/trp/backtest/engine.py:386-408 | in the log a rebalance leaves, every sale precedes every purchase, sales stand by falling net proceeds, purchases by id |
| Rebalancing.PurchasesGetTheirTurn | src/trp/backtest/engine.py:426-434 | every purchase with a same-day print has its turn once every sale has been dealt with, and reaches its target if and only if the whole order fits the cash then left |
| Rebalancing.FundedPurchasesAreFilled | src/trp/backtest/engine.py:405-434 | if cash plus the net of the filled sales covers the outlay of every printing purchase, each of them reaches its target |
| ActionEffects.SplitEffect | src/trp/backtest/engine.py:214-219 | a split leaves the whole shares of held times new over old and pays the fraction at the last close; nothing else moves, and without a holding or a close nothing does |
| ActionEffects.DividendEffect | src/trp/backtest/engine.py:220-225 | a dividend adds held times its amount in pence, a pound being a hundred; unconvertible or unheld it adds nothing |
| ActionEffects.MergerEffect | src/trp/backtest/engine.py:226-235 | a merger with cash terms closes the holding for them, converted likewise, or writes it off when they do not convert |
| ActionEffects.DelistingEffect | src/trp/backtest/engine.py:236-247 | a delisting closes the holding for nothing after a failure and for the last close otherwise |
| ActionEffects.OtherActionsLeaveBook | src/trp/backtest/engine.py:207-247 | rights issues and ticker changes leave the book unchanged |
| ActionEffects.StaleExitEffect | src/trp/backtest/engine.py:249-269 | a stale holding leaves for held times its last close, and a fresh one stays |
| EngineLoop.BacktestEngine.constructor | src/trp/backtest/engine.py:187-190 | the action index holds, for every day, exactly the actions that take effect on it, in input order |
| EngineLoop.BacktestEngine.ApplyKnowable | src/trp/backtest/engine.py:207-247 | the day's actions are applied in order, each as specified |
| EngineLoop.BacktestEngine.ForceExitStale | src/trp/backtest/engine.py:249-269 | holdings without a print within the limit leave at their last close |
| EngineLoop.BacktestEngine.RebalanceOn | src/trp/backtest/engine.py:303-335 | targets are asked for at the previous session's clock and the recorded row sums the trades just made |
| EngineLoop.BacktestEngine.Close | src/trp/backtest/engine.py:337-349 | the close marks the book, compares the log's replay with it, and records the day |
| EngineLoop.BacktestEngine.Run | src/trp/backtest/engine.py:289-349 | the whole loop, whatever it raises or records, equals the session-by-session specification |
| EngineLoop.FailureIsFinal | src/trp/backtest/engine.py:299-349 | a run that has raised records nothing more |
| EngineSafety.OpenDayIsSafe | src/trp/backtest/engine.py:207-269 | actions and stale exits never raise, only reduce the set of holdings, and leave none stale |
| EngineSafety.ExecuteIsSafe | src/trp/backtest/engine.py:375-434 | execution opens holdings only in securities that print that day |
| EngineSafety.EveryRunIsSafe | src/trp/backtest/engine.py:299-349 | every prefix of every run with non-negative targets succeeds, its log extends the day before's, and each close is solvent, marked, fresh and equal to the replay of its log |
| EngineSafety.ExitAtMarkIsNeutral | src/trp/backtest/engine.py:249-269 | leaving at the last close keeps value at the day's marks |
| Attribution.LogAccountsForValue | src/trp/backtest/portfolio.py:224-237 | at any marks, the value the log replays to is the sum of its events' cash and marked quantities |
| Attribution.RebalanceRowAccounts | src/trp/backtest/engine.py:303-335 | a rebalance row counts every event the rebalance added, and its costs are exactly the fall in value at the day's marks |
| Attribution.RowReconcilesWithCash | src/trp/backtest/engine.py:316-335 | the row's traded value is what was bought plus what was sold, its turnover half of that over the value before trading, and cash moves by what was sold less what was bought less the row's costs |
| Attribution.SessionAttribution | src/trp/backtest/engine.py:299-349 | over a session value moves by the price moves of what was held, by what its actions and exits contribute, and down by its trading costs |
| Attribution.EveryDayIsAttributed | src/trp/backtest/engine.py:299-349 | so does every daily value of every run, from the initial cash on |
| NoLookAhead.RunsAlikeToHorizon | src/trp/backtest/engine.py:289-349 | two datasets that agree up to a horizon give every clock-bound strategy the same events, daily rows, rebalance rows and errors through it |
| NoLookAhead.OffSessionActionNeverApplies | src/trp/backtest/engine.py:207-213 | an action whose effective day is not a session changes nothing in a run whose strategy ignores it |
| NoLookAhead.ClockIsPreviousSession | src/trp/backtest/engine.py:271-277 | a session decides at the greatest session before it, or ahead of the first at the trading day before that |
| LateActions.AppliedExactlyWhen | src/trp/backtest/engine.py:207-213 | an action is among those a session applies if and only if its effective day is a session, and then on that session alone |
| LateActions.ReceivedIsApplied | src/trp/backtest/engine.py:207-247 | each action a session receives is applied to the book the ones before it left, and what it records stays in the log |
| LateActions.LateDividendIsNeverPaid | src/trp/backtest/engine.py:207-213 | a run holding ten shares through a dividend's ex-date, published between two sessions, never gets its cash; published on the ex-date it does |
| Unpublished.KnownBoundIsClockBound | src/trp/backtest/context.py:109-171 | a strategy that computes from published actions only is clock-bound, so its runs look ahead in no other way either |
| Unpublished.UnseenAtClockExactlyWhen | src/trp/backtest/context.py:55-65 | a context at a clock before an action is published cannot tell whether the dataset holds it if and only if it is not the only unanchored action of its security |
| Unpublished.UnpublishedLeavesRunsAlike | src/trp/backtest/engine.py:289-349 | an action published after a horizon leaves every such strategy's run the same through it, unless at some rebalance clock it is the only unanchored action of its security |
| Context.ComputableInputs | src/trp/backtest/context.py:37-70 | the slicing loop computes the defined inputs |
| Context.KeptWholeOrDropped | src/trp/backtest/context.py:55-70 | a security is kept with all its bars and exactly its anchored actions, or dropped whole |
| Suspensions.UnanchorableExactlyWhen | src/trp/backtest/context.py:58-66 | on bars in date order an ex-date is unanchorable if and only if it lies among them and its anchor close does not exist, that is, no bar before it lies within seven days |
| Suspensions.DroppedExactlyWhen | src/trp/backtest/context.py:55-70 | a security is dropped if and only if some candidate of it is so placed; otherwise it keeps all its bars and exactly the candidates that lie among them |
| Suspensions.ContextDropsExactlyWhen | src/trp/backtest/context.py:146-151 | a context asked about a security withholds its bars if and only if some action of it goes ex among its bars of the last 450 days with none within seven days before; otherwise it hands over every such bar |
| Context.AgreeingDataSameView | src/trp/backtest/context.py:109-171 | on datasets that agree up to its day a context gives the same prices and the same sliced inputs, from which realised volatility and factor values are computed |
| Context.UnpublishedInvisibleExactlyWhen | src/trp/backtest/context.py:55-65 | an unpublished action changes nothing if and only if it is not the only thing that makes its security unanchorable |
| Context.UnpublishedActionCanSuspend | src/trp/backtest/context.py:55-65 | two bars ten days apart and an unpublished split: the security vanishes |
| Adjustments.GroupActions | src/trp/derived/adjustments.py:115-135 | per ex-date, the product of the split ratios and the dividends in order, ignoring ex-dates after the last bar |
| Adjustments.PreviousClose | src/trp/derived/adjustments.py:188-200 | an anchor is found if and only if some bar is the last one dated before the ex-date, all later bars being on or after it, and lies within seven days; it is that bar's close |
| Adjustments.SplitAtIsReciprocal | src/trp/derived/adjustments.py:139-142 | the reciprocal of the grouped ratio is the product of old over new |
| Adjustments.GroupIsBetween | src/trp/derived/adjustments.py:137-152 | one event's combined factor is the factor of the one-day interval ending on its ex-date |
| Adjustments.BetweenSplits | src/trp/derived/adjustments.py:8-16 | factors compose over adjoining intervals of ex-dates |
| Adjustments.ListEvents | src/trp/derived/adjustments.py:137-152 | the event list succeeds exactly when every dividend up to the last bar can be anchored, and lists each ex-date once, latest first |
| Adjustments.ComputeFactors | src/trp/derived/adjustments.py:154-163 | the backward pointer sweep gives every bar the product over all events after it up to the last bar, or the anchoring error |
| Adjustments.FactorAtLast | src/trp/derived/adjustments.py:3-4 | the factor at the last bar is one |
| Slicing.SliceIsAnchorable | src/trp/backtest/context.py:45-65 | factor computation on a slice never meets a missing anchor |
| Slicing.SlicingIsExact | src/trp/backtest/context.py:37-70 | any in-window ratio of adjusted closes from the slice equals the full history's, cross-multiplied |
| Slicing.KeptInputs | src/trp/backtest/context.py:146-151 | what is handed over is a contiguous window of the full panel and exactly the anchored actions |
| Slicing.ContextSlicingIsExact | src/trp/backtest/context.py:146-171 | the same end to end, for every security a context's slicer keeps and every knowledge time |
| Slicing.ReturnAcrossExDate | src/trp/derived/adjustments.py:139-152 | across one ex-date with one dividend the adjusted ratio is the next close over the split-adjusted close less the dividend |
| Slicing.TotalReturns | src/trp/derived/adjustments.py:230-257 | bar-over-bar returns exist exactly when no adjusted close but the last is zero |
| Slicing.ReturnsTelescope | src/trp/derived/adjustments.py:230-257 | compounded bar-over-bar returns equal the ratio of the window's ends |
| Ranges.OverlapMeansSharedDate | src/trp/domain/ranges.py:14-23 | two proper ranges overlap if and only if some date lies in both |
| Ranges.NothingReportedMeansDisjoint | src/trp/domain/ranges.py:26-40 | comparing only neighbours after sorting reports nothing if and only if the ranges are pairwise disjoint |
| Ranges.ReportedPairOverlaps | src/trp/domain/ranges.py:26-40 | a reported pair is two different positions whose ranges overlap |
| Records.RevisionUnseenBefore | src/trp/domain/changes.py:153-175 | a revision known at k leaves every view before k as it was, record for record |
| Records.SupersedingMatchesOverwriting | src/trp/domain/changes.py:153-175 | after k the current records are those of overwriting, up to order and recording time |
| Records.RevisionLeavesOthers | src/trp/domain/changes.py:153-175 | other securities keep every record, superseded ones included |
| Masters.StatusIsUnambiguous | src/trp/domain/pit.py:110-119 | in a consistent master the first status found is the only one covering the date |
| Masters.ListingsOnExactly | src/trp/domain/pit.py:122-130 | the listings on a date are exactly the security's current ones in force |
| ConflictScan.ScanIsSweep | src/trp/domain/identifier_map.py:90-102 | finding a first overlap, discarding its second record and searching again reports the pairs of one pass in order of start, which compares each record with the last one kept |
| ConflictScan.ScanIsRightExactlyWhen | src/trp/domain/identifier_map.py:75-102 | on every group of proper records the scan is silent exactly when nothing conflicts, unless it is silent while a dropped record shares a date with a kept one that disagrees |
| ConflictScan.SearchesAreRightExactlyWhen | src/trp/domain/identifier_map.py:65-87 | the same for both searches, one security per value and one value per security |
| ConflictScan.ContainedSearchesAreRight | src/trp/domain/identifier_map.py:65-87 | both searches are right on every group in which a record overlapping an earlier one of its own kind ends no later than it |
| ConflictScan.RepeatsHideNoSecurityExactlyWhen | src/trp/domain/identifier_map.py:75-80 | what one security holds under a value hides no other security's claim if and only if the kept records cover every date of the dropped ones |
| ConflictScan.RepeatsHideNoValueExactlyWhen | src/trp/domain/identifier_map.py:81-86 | the same of a security's repeated value and its other values |
| ConflictScan.PairHidesNothingExactlyWhen | src/trp/domain/identifier_map.py:90-102 | two overlapping records of one kind hide nothing if and only if the later-starting one ends no later than the other |
| ConflictScan.TwoSecuritiesCanShareAValue | src/trp/domain/master.py:37-96 | a master that passes the whole check with one ticker held by two securities on one date |
| ConflictScan.OneSecurityCanHoldTwoValues | src/trp/domain/master.py:37-96 | a master that passes the whole check with two tickers held by one security on one date |
| MasterCheck.CheckMaster | src/trp/domain/master.py:37-96 | the loops accept a master if and only if the aggregate invariant holds |
| Changes.ApplyEvent | src/trp/domain/changes.py:81-131 | applying an event computes the specified successor or error |
| Changes.PlansAreSound | src/trp/domain/changes.py:195-378 | every event revises only current records of its own security and opens only its own |
| EventEffects.EventLeavesThePast | src/trp/domain/changes.py:195-378 | before its effective date an accepted event changes neither the security's status nor the listings and identifiers it holds |
| EventEffects.EndingTakesEffect | src/trp/domain/changes.py:318-378 | an accepted delisting or acquisition terminates the security: from the effective date its status is liquidated for a failure, delisted otherwise, acquired for an acquisition, and no listing or identifier of it is in force |
| EventEffects.EndingClosesListings | src/trp/domain/changes.py:347-351 | each listing then in force stays on record, closed with the reason |
| EventEffects.TickerChangeTakesEffect | src/trp/domain/changes.py:195-229 | from the effective date of an accepted ticker change the security holds the new ticker on the exchange and no other, save one that a provider's own map opens later |
| EventEffects.ExchangeMoveTakesEffect | src/trp/domain/changes.py:248-315 | from the effective date of an accepted move the security is listed on the new exchange in the new currency with the new ticker, the only one there unless one was in force there already, and none of its tickers of the old exchange is left |
| EventEffects.ExchangeMoveLeavesOldListing | src/trp/domain/changes.py:257-284 | the first listing on the old exchange is closed as a move and stays on record; when it was the only one, none that had begun is left there |
| EventEffects.MoveStandsAloneExactlyWhen | src/trp/domain/changes.py:293-315 | a ticker new to the exchange is the only one there from the effective date on if and only if the security had none in force there, or moves to where it is |
| PointInTime.PointInTimeSecurityMaster.View | src/trp/domain/pit.py:63-71 | a cached view is the view computed afresh; a refused one is not cached |
| PointInTime.EarlierViewsUnchanged | src/trp/domain/changes.py:153-175 | an event known at k leaves the whole view at every t < k exactly as it was |
| PointInTime.LatestViewConsistent | src/trp/domain/pit.py:26-50 | from the latest knowledge time on, the view is the current records and satisfies the invariant |
| PointInTime.EveryViewIsHistory | src/trp/domain/pit.py:35-50 | over any run of events in knowledge order, the view at t of the final master is the view right after the events known by t, satisfies the invariant, and is accepted when validated again |
| PointInTime.BackfillViewsConsistent | src/trp/domain/pit.py:35-50 | from a consistent backfilled master every view at every instant satisfies the invariant and is accepted |
| PointInTime.SupersedingIsOverwritingTheView | src/trp/domain/changes.py:153-175 | superseding at k and viewing at t gives the same records as applying the event destructively to the view at t |
| PointInTime.TerminationIsAbsorbing | src/trp/domain/changes.py:139-150 | no ticker change, exchange move or termination of a terminated security succeeds, whatever its effective date or knowledge time |
| PointInTime.EventLeavesOthers | src/trp/domain/changes.py:153-175 | an event leaves every other security's history as it was |
| PointInTime.TerminationIsForever | src/trp/domain/changes.py:318-378 | over any run of events a terminated security's history never changes again |
| Weighting.Cap | src/trp/backtest/weighting.py:133-155 | the redistribution loop ends; it refuses or divides by zero exactly under the stated conditions, and else returns min(cap, multiple x weight) for one multiple of at least 1, placing everything |
| Weighting.ApplyLimits | src/trp/backtest/weighting.py:107-130 | the limits loop settles within its passes on one multiple of the original weights over the names the rounds of elimination end with, within both limits and with the invested total kept; otherwise those rounds end in the refusal reported, or the division by zero happens exactly under its condition |
| Weighting.FinalRoundsAreUnique | src/trp/backtest/weighting.py:117-129 | the rounds of elimination, defined without rescaling, have one outcome for given weights and limits |
| Weighting.SettledIsTheOnlyAllocation | src/trp/backtest/weighting.py:107-130 | no other capped proportional allocation over the surviving names places the same total |
| Weighting.ShiftingCanDivideByZero | src/trp/backtest/weighting.py:80-86 | shifted scores under a cap that only the full list could meet always divide by zero |
| RenameChains.Forest.Find | src/trp/universe/ftse_build.py:82-87 | a lookup returns the root and, though it halves paths, changes no ticker's root |
| RenameChains.Forest.Link | src/trp/universe/ftse_build.py:93-95 | uniting two roots makes one tree of two |
| RenameChains.MarksAreComponents | src/trp/universe/ftse_build.py:78-96 | marks that agree along every entry and stay within a chain are equal exactly along chains |
| RenameChains.ChainRoots | src/trp/universe/ftse_build.py:78-96 | the result covers exactly the tickers mentioned and gives two of them one root if and only if a chain of rename entries connects them |
| UnitRepair.Continuity | src/trp/canonical/unit_repair.py:289-306 | the loop resolves exactly when every flip leaves the running scale at 1, 100 or 1/100, and then lists exactly the flips and each bar's scale |
| UnitRepair.SecondPassFindsNothing | src/trp/canonical/unit_repair.py:252-313 | a second pass over any repaired series finds no flip |
| UnitRepair.RepairRestoresExactlyWhen | src/trp/canonical/unit_repair.py:252-313 | repair gives back the true series if and only if every true one-bar ratio is readable through its unit move, and then flags exactly the switch dates |
| UnitRepair.ModerateMovesAreReadable | src/trp/canonical/unit_repair.py:252-313 | true moves within 5/7 and 7/5 are readable, so such series are always restored |
| IndexHistory.ReplayIndexHistory | src/trp/universe/sourcing.py:44-157 | the replay succeeds if and only if the history is legal, and then on every date from the anchor the tickers whose spell holds the date are exactly the members after all changes effective by then, with disjoint spells per ticker |
| IndexHistory.ReplayChange | src/trp/universe/sourcing.py:72-143 | one change is accepted exactly when its renames, removals, additions and resulting count are legal, and alters no coverage before its date |
| IndexHistory.CountWithinOnEveryDay | src/trp/universe/sourcing.py:138-143 | the number of tickers covered is within tolerance on every date from the anchor, not only on change dates |
| Universe.MembersOf | src/trp/universe/query.py:68-81 | members are refused exactly when no visible spell has begun by the date, and are else exactly the securities with a visible spell in force |
| Universe.LaterRowUnseen | src/trp/universe/membership.py:97-111 | a membership recorded after the knowledge instant changes no answer at it |
| Universe.SupersededRowUnseen | src/trp/universe/membership.py:97-111 | superseding a membership at an instant changes no answer given before it, and from then on answers are as if it were not there |
| Universe.MembershipChanges | src/trp/universe/query.py:83-109 | every addition and removal in the interval exactly once, in date order with additions first |
| Universe.FoldedMembers | src/trp/universe/query.py:83-109 | folding the changes over the members at the start gives exactly the members at the end that did not resume on the day they left |
| Universe.ChangesReproduceExactlyWhen | src/trp/universe/query.py:83-109 | so it gives the members at the end if and only if none of them resumed on the day it left |
| Universe.TouchingSpellsDoNotReplay | src/trp/universe/query.py:83-109 | two touching spells of one security do not replay |
| Universe.CheckedRowsAreSpells | src/trp/universe/membership.py:80-94 | memberships that pass the stored overlap check meet what the folding theorem asks |
| UniverseQueries.UniverseQuery.Load | src/trp/universe/query.py:59-66 | cached records are the stored ones of that version |
| UniverseQueries.UniverseQuery.Members | src/trp/universe/query.py:68-81 | a cached answer is the defined answer for every version, date and knowledge time, and a refusal is not cached |
| Revisions.ClassifyObservations | src/trp/canonical/fundamentals/revisions.py:71-130 | the dictionary-based loop computes the definition over the table of rows, refuses exactly broken series up front, and its counters account for every observation |
| Revisions.CheckRevisionSeries | src/trp/domain/fundamentals.py:111-131 | a series passes exactly when its sequences are contiguous from 0 and its revision stamps increase |
| Revisions.BatchKeepsSequences | src/trp/canonical/fundamentals/revisions.py:94-123 | every series stays contiguous, and strictly increasing availability is kept |
| Revisions.EveryRunIsWellSequenced | src/trp/canonical/fundamentals/revisions.py:71-130 | over any run of batches from nothing every series is well sequenced and the up-front check never refuses |
| Revisions.StoredRowsArePointInTime | src/trp/domain/fundamentals.py:76-101 | rows stored from valid observations are valid |
| Revisions.RowsRecordObservations | src/trp/canonical/fundamentals/revisions.py:94-118 | every row a batch appends carries the key, currency, value and availability of an observation in it |
| Revisions.AcceptedExactlyWhen | src/trp/canonical/fundamentals/revisions.py:86-123 | a batch is accepted if and only if each observation in turn is the first of its key, or in the key's currency and either repeats the standing value or becomes available strictly after it |
| Revisions.AnswerIsHighestKnowable | src/trp/canonical/fundamentals/queries.py:82-85 | a key is answered if and only if some row is knowable, and then by the highest knowable revision |
| Revisions.AnswerIsLastOfPrefix | src/trp/canonical/fundamentals/queries.py:41-85 | the knowable rows of a series are a prefix of it and the answer is the last of that prefix |
| Revisions.AnswersNeverGoBack | src/trp/canonical/fundamentals/queries.py:41-85 | as knowledge time advances an answer never disappears or goes back |
| Revisions.RestatementsAreNeverRetroactive | src/trp/canonical/fundamentals/revisions.py:16-20 | a batch changes no answer up to the instant the latest known revision became available |
| Revisions.LaterObservationsAreUnseen | src/trp/canonical/fundamentals/revisions.py:94-118 | a batch whose observations of a key all become available after an instant changes no answer for the key at it, whether or not anything was known of it before |
| Revisions.ReclassifyingAppendsNothingExactlyWhen | src/trp/canonical/fundamentals/revisions.py:13-15 | classifying an accepted batch again appends nothing if and only if no key was observed with two values |
| Calendar.ShiftLands | src/trp/factors/returns.py:100-106 | the shift lands that many months away, on the latest existing day not after the original day of the month |
| Calendar.ShiftSucceedsExactlyWhen | src/trp/factors/returns.py:100-106 | the shift succeeds if and only if the calendar has the month it lands in and the month after |
| Calendar.ShiftIsMonotone | src/trp/factors/returns.py:100-106 | clamping keeps the shift monotone |
| Calendar.ShiftBackIsEarlier | src/trp/factors/returns.py:100-106 | a shift is strictly earlier if and only if the months are negative |
| Calendar.RoundTripExactlyWhen | src/trp/factors/returns.py:100-106 | there and back is the identity if and only if the day exists in the month visited |
| Rolling.AdvanceStart | src/trp/backtest/rolling.py:84-87 | the carried start moves to the least position dated after the cutoff and, for at least one month, never out of bounds |
| Rolling.RollingMetrics | src/trp/backtest/rolling.py:55-115 | rows are produced if and only if dates are sorted and a month window reaches back at least one month within the calendar; each row then covers exactly its window and has a statistic exactly with enough observations |
| Rolling.RowsLookOnlyBack | src/trp/backtest/rolling.py:3-4 | a row is fixed by the dates and values up to its own |
| Drawdown.MaxDrawdown | src/trp/backtest/metrics.py:123-136 | the running-peak loop finds the least change over all pairs of an earlier and a later value, and the first position that reaches it |
| Drawdown.FindEpisodes | src/trp/reporting.py:195-212 | the episodes are in order, apart, each from a running peak with its first lowest position, and together every position below an earlier value |
| Drawdown.DrawdownEpisodes | src/trp/reporting.py:190-218 | the first row carries the least change over all pairs and its first position; there is no row exactly when nothing ever declines |
| Drawdown.DeepestIsUnique | src/trp/backtest/metrics.py:123-136 | depth and first trough are determined by the values |
| Drawdown.TwoAlgorithmsAgree | src/trp/reporting.py:190-218 | whenever there is any decline the two algorithms report the same depth and trough, and otherwise the running peak reports none |

## Left out

- File formats and tables: JSON, Parquet, Polars frames, DuckDB, the raw store and the CLI carry values in and out of what is modelled.
- Warnings, notes and provenance text, and counters kept only for reports.
- Rounding: 28-digit decimal contexts, floats and quantised factors are exact reals here, and the 1e-12 tolerances of the position limits are zero.
- Calendars: sessions, the trading day before the first and the rebalance days are given; the proofs ask only that sessions increase.
- The strategy is an arbitrary function of the dataset, the clock, the positions and the portfolio value; that it reads data only through the context is a hypothesis of the look-ahead theorem. The portfolio value it receives is marked at the fill day, as in the code.
- Security ids are integers, since only equality and order matter; `bisect`, `median` and sorting are functions with their meaning proved.
- EngineLoop.BacktestEngine.ForceExitStale: stale holdings leave in id order, where the code follows the order in which they were first held; the log order of several exits on one day can differ.
- EngineLoop.BacktestEngine.Run: the engine asks the lookup functions directly; that the indexed object computes the same is `MarketIndex.MarketData`.
- Adjustments.ComputeFactors: one security at a time; the grouping of bars and actions by security and the provenance record are not modelled. `Fraction` pairs are reals.
- Entities and entity renames, which ignore knowledge time, and the identifier resolver's cache.
- MasterCheck.CheckMaster: entities are not modelled, so neither are the duplicate-entity and unknown-entity rules.
- Context.AgreeingDataSameView: a context's members come from the universe's own records, which the dataset does not hold; see `Universe.LaterRowUnseen`.
- PointInTime.EveryViewIsHistory: a view before the run's first knowledge time must be consistent to begin with, since records may be loaded with any stamps; from a backfilled master nothing is asked (`PointInTime.BackfillViewsConsistent`).
- Changes.ApplyEvent: field patterns (ticker syntax, ISIN and MIC checksums) are not checked; the rules across records are.
- Weighting.ApplyLimits: for non-negative weights; equal, rank and inverse-volatility weighting are one-line formulas.
- UnitRepair.Continuity: the later steps of price repair (global unit, adjudicated segments, spikes) are data policy.
- IndexHistory.ReplayIndexHistory: names, sources, verification flags and the final sort of the spells are not modelled; tickers come already stripped.
- Universe.MembershipChanges: one registered universe at a time; the registry of names is not modelled.
- Revisions.ClassifyObservations: keys, currencies, values and stamps only; filing time, source and imputation travel unchanged with a row. The unknown-line-item error of the query is a set difference.
- Rolling.RollingMetrics: the statistics of a window are one parameter, a function of its values; the benchmark's alignment check and beta are not modelled.
- Drawdown.DrawdownEpisodes: for positive values; the table's dates, durations and benchmark columns are presentation.
