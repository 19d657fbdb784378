# stock_analysis core, modelled in Dafny

This project models three self-contained parts of the `stock_analysis`
repository:

- **Crossover signal generator.** It takes trailing rolling means of the
  closing price for a short and a long window. Golden crosses are buys and
  death crosses are sells. The events become cumulative buy and sell
  counters. The sell counter is shifted by the least raw difference and
  clamped at zero. The result is a `percentage_of_cash_invested` column.
  - The older 1 / 0 / null variant of the signal is modelled too.
  - So is the parameter sweep: a product of window ranges, an ordered map
    of final asset values and a pivot into a table.
- **Missing-period detection** over a time axis cut into fixed-length
  slots.
  - The archived scan coalesces consecutive missing trading slots into
    runs.
  - The newer scan reports each missing slot on a trading day on its own.
- **Small parsers and validators.**
  - The time-frame unit parser comes in a strict copy, which raises, and
    two lenient copies, which return None.
  - The bar-table validator checks nulls, column types and signs, in that
    order.

Prices and averages are `real`. Timestamps are whole minutes since
1970-01-01 00:00, with no time zone. A column that polars can leave null
is a `seq<Option<real>>`. Every Python exception in the modelled code
becomes the `Err` case of a `Result`.

Modules, one per file:

- `wrappers.dfy` (module `Wrappers`): `Option`, `Result`
- `time_frame.dfy` (module `TimeFrames`): `set_time_frame` (all three copies)
- `price_data.dfy` (module `PriceData`): the bar record and its `close` column
- `moving_average.dfy` (module `MovingAverage`): `rolling_mean`, `cum_sum`, `calculate_moving_averages`
- `crossover.dfy` (module `Crossover`): null-aware comparisons, `shift(1)`, the buy and sell conditions
- `cross_signal.dfy` (module `GoldCrossDeathCross`): `default_gold_cross_death_cross` of `strategy_constructor`
- `strategy_construction.dfy` (module `StrategyConstruction`): the older signal, `compute_final_asset_value`, `sensitivity_analysis`
- `time_axis.dfy` (module `TimeAxis`): slot lengths and the slot grid shared by both scans
- `missing_runs.dfy` (module `ArchivedLoad`): the archived `identify_missing_periods`
- `missing_slots.dfy` (module `DataExtractLoad`): `is_trading_day` and the newer `identify_missing_periods`
- `validate.dfy` (module `ValidateData`): `validate_data`

Some behaviours of the code that are easy to overlook:

- **Pivot order.** The pivot lists windows in order of first appearance;
  it does not sort them.
- **Repeated windows.** The pivot has no aggregate function, so a window
  given twice in a range makes a (short, long) group of two records and
  the sweep fails.
- **Failed pairs.** The first pair whose strategy trace is empty fails
  the whole sweep; no partial table is returned.
- **No upper bound.** `percentage_of_cash_invested` is never negative,
  and nothing bounds it by 1.
- **Windows.** Window arguments are truncated with `int(...)` and are
  not checked to be positive.
- **Repeated columns.** An expected column given twice makes `df[name]`
  a table, whose missing `dtype` attribute fails the validation.

## Model

| member | source | states |
|---|---|---|
| MovingAverage.CumSum | src/strategy_constructor/default_gold_cross_death_cross.py:45-53 | `cum_sum`: entry i is the sum of the first i + 1 inputs |
| MovingAverage.CumSumStep | src/strategy_constructor/default_gold_cross_death_cross.py:45-53 | the running total starts at the first input and grows by exactly the next input at each row |
| MovingAverage.RollingMean | src/common/moving_average.py:7-8 | `rolling_mean(w)`: null exactly for the first w - 1 rows, then the arithmetic mean of the trailing w closes |
| MovingAverage.WindowAverageIsMean | src/common/moving_average.py:7 | the sliding-sum window average (a difference of two running totals over w) is null exactly before the window fills and is the window mean afterwards |
| MovingAverage.RollingMeanDefinedFrom | src/common/moving_average.py:7 | a defined average implies at least w observations |
| MovingAverage.RollingMeanOfFlatSeries | src/common/moving_average.py:7 | on a constant series the average is null over the prefix and equals the constant afterwards |
| MovingAverage.WindowSizeTruncates | src/common/moving_average.py:7-8 | `int(x)` truncates toward zero on both signs |
| MovingAverage.WindowSizeOfInteger | src/common/moving_average.py:7-8 | an integral window is left unchanged |
| MovingAverage.MovingAverages | src/common/moving_average.py:5-10 | the same rows in the same order, each with `Short_MA` and `Long_MA` obeying the null-prefix and window-mean rule for its window |
| MovingAverage.CalculateMovingAverages | src/common/moving_average.py:5-10 | `calculate_moving_averages`: the rows are kept, and equal truncated windows give identical `Short_MA` and `Long_MA` columns |
| MovingAverage.SumSplit | src/common/moving_average.py:7 | the sum of a prefix splits at any point (used for window sums) |
| MovingAverage.SumConstant | src/common/moving_average.py:7 | the sum of n copies of c is n * c |
| MovingAverage.MeanOfConstant | src/common/moving_average.py:7 | the mean of a constant window is that constant |
| Crossover.Shift | src/strategy_constructor/default_gold_cross_death_cross.py:38-43 | `shift(1)`: the same length, null at row 0, row i holds row i - 1 |
| Crossover.BuyEvents | src/strategy_constructor/default_gold_cross_death_cross.py:38-40 | the buy condition fires exactly on golden crosses: both averages are defined at i and i - 1, short > long at i and short <= long at i - 1; it never fires at row 0 |
| Crossover.SellEvents | src/strategy_constructor/default_gold_cross_death_cross.py:41-43 | the sell condition fires exactly on death crosses (the mirror rule), never at row 0, and never on a row where the buy condition fires |
| Crossover.NoCrossOfIdenticalColumns | src/strategy_constructor/default_gold_cross_death_cross.py:38-43 | when the two average columns are identical, neither condition ever fires |
| Crossover.CrossNeedsPreviousRow | src/strategy_constructor/default_gold_cross_death_cross.py:38-43 | a firing row has a previous row on which both averages are defined |
| GoldCrossDeathCross.Sells | src/strategy_constructor/default_gold_cross_death_cross.py:32-43 | the sell events of the close series are never buy events on the same row |
| GoldCrossDeathCross.Minimum | src/strategy_constructor/default_gold_cross_death_cross.py:61 | `min(...)` of a non-empty column is one of its values and at most every value |
| GoldCrossDeathCross.CorrectedSell | src/strategy_constructor/default_gold_cross_death_cross.py:62-72 | the shifted and clamped sell counter is max(0, counter + shift) at every row |
| GoldCrossDeathCross.InvestedAt | src/strategy_constructor/default_gold_cross_death_cross.py:61-77 | the percentage at row i is the unchanged buy counter minus max(0, sell counter + m), where m is the least raw difference |
| GoldCrossDeathCross.CountersStep | src/strategy_constructor/default_gold_cross_death_cross.py:45-53 | the buy counter grows by 1{buy} + default at each row and the sell counter by 1{sell} |
| GoldCrossDeathCross.CountersMonotone | src/strategy_constructor/default_gold_cross_death_cross.py:45-53 | with default >= 0 both counters are non-negative and non-decreasing |
| GoldCrossDeathCross.InvestedNonNegative | src/strategy_constructor/default_gold_cross_death_cross.py:60-77 | with default >= 0 the final percentage is >= 0 on every row |
| GoldCrossDeathCross.ZeroAtMinimum | src/strategy_constructor/default_gold_cross_death_cross.py:61-77 | the raw difference attains its minimum on some row, and the final percentage is exactly 0 on every such row |
| GoldCrossDeathCross.InvestedStep | src/strategy_constructor/default_gold_cross_death_cross.py:45-77 | from one row to the next the percentage grows by the buy indicator plus the default, less at most the sell indicator |
| GoldCrossDeathCross.InvestedMovesOnlyOnEvents | src/strategy_constructor/default_gold_cross_death_cross.py:45-77 | with default 0 the percentage rises by exactly 1 on a buy row, falls by at most 1 on a sell row and is unchanged on any other row |
| GoldCrossDeathCross.CountersWithoutEvents | src/strategy_constructor/default_gold_cross_death_cross.py:45-53 | without events, the buy counter is (i + 1) times the default and the sell counter stays 0 |
| GoldCrossDeathCross.NoEventsNoInvestment | src/strategy_constructor/default_gold_cross_death_cross.py:45-77 | without events and with default 0, the percentage is 0 on every row |
| GoldCrossDeathCross.InvestedNonNegativeForWindows | src/strategy_constructor/default_gold_cross_death_cross.py:32-77 | for any windows and any non-empty close series, with default >= 0, the percentage is never negative |
| GoldCrossDeathCross.BuySellExclusive | src/strategy_constructor/default_gold_cross_death_cross.py:38-43 | buy and sell never fire on the same row |
| GoldCrossDeathCross.EventsNeedFullWindows | src/strategy_constructor/default_gold_cross_death_cross.py:32-43 | an event at row i needs i >= both windows, so a series no longer than the longer window never trades |
| GoldCrossDeathCross.PreviousAveragesDefined | src/strategy_constructor/default_gold_cross_death_cross.py:32-43 | an event at row i has both averages defined at row i - 1 |
| GoldCrossDeathCross.EqualWindowsNeverTrade | src/strategy_constructor/default_gold_cross_death_cross.py:32-43 | equal windows give no buy and no sell; with default 0 the percentage is then 0 everywhere |
| GoldCrossDeathCross.FlatSeriesNeverTrades | src/strategy_constructor/default_gold_cross_death_cross.py:32-43 | a constant close series never trades, for any windows |
| GoldCrossDeathCross.SignalForWindows | src/strategy_constructor/default_gold_cross_death_cross.py:32-79 | an empty table fails at `min(...)`; otherwise the rows come back in order with their percentage, which is never negative when the default is not |
| GoldCrossDeathCross.DefaultGoldCrossDeathCross | src/strategy_constructor/default_gold_cross_death_cross.py:10-79 | the entry point with real window arguments truncated to integers: fails exactly on an empty table, keeps the rows in order, never negative for a default >= 0 |
| StrategyConstruction.SignalColumn | src/strategy_construction/default_gold_cross_death_cross.py:47-49 | `when(buy).then(1).when(sell).then(0)`: 1 exactly on buy rows, 0 exactly on sell rows without a buy, null on every other row; nothing is carried forward |
| StrategyConstruction.LegacyForWindows | src/strategy_construction/default_gold_cross_death_cross.py:36-73 | fails on an empty table (`close[0]`) and on a zero first close (`cash / 0`); otherwise the rows come back in order with both rolling means and a signal that is 1 exactly on buys, 0 exactly on sells and null elsewhere, using the same crossover rules as the newer strategy |
| StrategyConstruction.LegacyGoldCrossDeathCross | src/strategy_construction/default_gold_cross_death_cross.py:18-73 | the entry point with window arguments truncated: the same two failures, the rows kept, and every signal in {1, 0, null} |
| StrategyConstruction.LegacySignalNeedsFullWindows | src/strategy_construction/default_gold_cross_death_cross.py:38-49 | the signal is null on every row before both windows are full |
| StrategyConstruction.ProductLength | src/strategy_construction/default_gold_cross_death_cross.py:89 | the product has exactly len(shorts) * len(longs) combinations, duplicates kept |
| StrategyConstruction.RowOffsetIsProduct | src/strategy_construction/default_gold_cross_death_cross.py:89 | the offset of short-window row i is i * len(longs) |
| StrategyConstruction.ProductAt | src/strategy_construction/default_gold_cross_death_cross.py:89 | short-major order: combination i * len(longs) + j is (shorts[i], longs[j]) |
| StrategyConstruction.ProductMembership | src/strategy_construction/default_gold_cross_death_cross.py:89 | a pair occurs in the product exactly when its short window is in the short range and its long window in the long range |
| StrategyConstruction.ComputeFinalAssetValue | src/strategy_construction/default_gold_cross_death_cross.py:82-84 | the pair's value is the last entry of its asset-value trace; an empty trace fails (`[-1]` raises) |
| StrategyConstruction.MapFinalValues | src/strategy_construction/default_gold_cross_death_cross.py:92-93 | the ordered map succeeds exactly when every trace is non-empty, and then value k belongs to combination k; otherwise it fails on the first pair whose trace is empty |
| StrategyConstruction.ZipResults | src/strategy_construction/default_gold_cross_death_cross.py:96-97 | record k pairs combination k with value k |
| StrategyConstruction.Lookup | src/strategy_construction/default_gold_cross_death_cross.py:101 | the cell value of a pair is the value of a record with that pair (the first one), or null when no record has that pair |
| StrategyConstruction.Pivot | src/strategy_construction/default_gold_cross_death_cross.py:98-101 | an empty record list fails for want of columns; records sharing a (short, long) group fail, as the pivot has no aggregate function; otherwise the index holds exactly the short windows that occur, the columns exactly the long windows that occur, and the cell grid has that shape |
| StrategyConstruction.LookupUnique | src/strategy_construction/default_gold_cross_death_cross.py:101 | with no repeated group, each record's pair looks up that record's own value |
| StrategyConstruction.PivotCellsHoldRecords | src/strategy_construction/default_gold_cross_death_cross.py:101 | in a successful pivot every cell holds the value recorded for its pair, and every record's pair has a cell |
| StrategyConstruction.PivotAxes | src/strategy_construction/default_gold_cross_death_cross.py:101 | the index and columns are the distinct short and long windows in order of first appearance |
| StrategyConstruction.DistinctElements | src/strategy_construction/default_gold_cross_death_cross.py:101 | the distinct-values list has the same elements as its input, each once |
| StrategyConstruction.SensitivityAnalysis | src/strategy_construction/default_gold_cross_death_cross.py:87-103 | the sweep fails with no columns exactly when a range is empty; a failing pair lies in both ranges and has an empty trace; with every trace non-empty, it fails on a repeated group exactly when a range repeats a window; it succeeds exactly when both ranges are non-empty and free of repeats and every pair's trace is non-empty |
| StrategyConstruction.ZipRepeated | src/strategy_construction/default_gold_cross_death_cross.py:96-101 | the records repeat a (short, long) group exactly when the combinations repeat a pair |
| StrategyConstruction.RowOffsetMonotone | src/strategy_construction/default_gold_cross_death_cross.py:89 | a later short-window row of the product starts later |
| StrategyConstruction.DistinctPairsAppend | src/strategy_construction/default_gold_cross_death_cross.py:89 | joining two repeat-free pair lists with no pair in common gives a repeat-free list |
| StrategyConstruction.ProductDistinctFromRanges | src/strategy_construction/default_gold_cross_death_cross.py:89 | repeat-free ranges give a repeat-free product |
| StrategyConstruction.RepeatedShortRepeatsPair | src/strategy_construction/default_gold_cross_death_cross.py:89 | a short window given twice puts some pair twice in the product |
| StrategyConstruction.RepeatedLongRepeatsPair | src/strategy_construction/default_gold_cross_death_cross.py:89 | a long window given twice puts some pair twice in the product |
| StrategyConstruction.ProductDistinct | src/strategy_construction/default_gold_cross_death_cross.py:89 | with both ranges non-empty, the combinations are pairwise distinct exactly when neither range repeats a window |
| StrategyConstruction.DistinctFromFresh | src/strategy_construction/default_gold_cross_death_cross.py:101 | deduplicating a repeat-free list, none of whose values was seen, leaves it unchanged |
| StrategyConstruction.ProductFacts | src/strategy_construction/default_gold_cross_death_cross.py:89 | the product is empty exactly when a range is empty, and contains exactly the pairs drawn from both ranges |
| StrategyConstruction.DistinctShortsOfProduct | src/strategy_construction/default_gold_cross_death_cross.py:89-101 | the distinct short windows of the product are the distinct windows of the short range, in order |
| StrategyConstruction.DistinctLongsOfProduct | src/strategy_construction/default_gold_cross_death_cross.py:89-101 | the distinct long windows of the product are the distinct windows of the long range, in order |
| StrategyConstruction.LookupInSweep | src/strategy_construction/default_gold_cross_death_cross.py:92-101 | any pair of the sweep looks up to the last entry of its own trace |
| StrategyConstruction.SweepRecords | src/strategy_construction/default_gold_cross_death_cross.py:87-103 | a successful sweep is the pivot of the zipped product and final values |
| StrategyConstruction.SensitivityAxes | src/strategy_construction/default_gold_cross_death_cross.py:96-101 | the table of a successful sweep has exactly the short range as its rows and the long range as its columns, in range order |
| StrategyConstruction.SensitivityTable | src/strategy_construction/default_gold_cross_death_cross.py:87-103 | cell (s, l) of a successful sweep holds the last asset value of pair (s, l)'s trace |
| TimeFrames.LowerChar | src/data_extraction_load/fetch_data.py:13 | lower-casing maps A-Z to a-z and leaves every other character alone |
| TimeFrames.ToLowerIdempotent | src/data_extraction_load/fetch_data.py:13 | lower-casing twice is lower-casing once |
| TimeFrames.ParseUnit | src/data_extraction_load/fetch_data.py:14-19 | "minute"/"min" give Minute, "hour"/"hr" give Hour, "day" gives Day, after lower-casing; each in both directions |
| TimeFrames.ParseUnitCaseInsensitive | src/data_extraction_load/fetch_data.py:13 | the result depends only on the lower-cased unit |
| TimeFrames.ParseUnitOfLowered | src/data_extraction_load/fetch_data.py:13 | parsing the lower-cased unit gives the same result |
| TimeFrames.ParseUnitExamples | src/data_extraction_load/fetch_data.py:14-21 | "MINUTE", "Min", "Hour", "HR" and "Day" are accepted; "days", "" and "week" are not |
| TimeFrames.UnitMinutes | src/data_extraction_load/archived/data_extract_load.py:186-193 | every unit is at least one minute long |
| TimeFrames.SetTimeFrame | src/data_extraction_load/fetch_data.py:9-21 | succeeds exactly for a known unit, with the length passed through unchanged; otherwise fails naming the lower-cased unit |
| TimeFrames.SetTimeFrameOrNone | src/data_extract_load/data_extract_load.py:11-23 | the lenient copy: a time frame exactly for a known unit, None otherwise |
| TimeFrames.LenientAgreesWithStrict | src/data_extraction_load/archived/data_extract_load.py:12-24 | the lenient copies return None exactly where the strict one raises, and the same time frame elsewhere |
| TimeAxis.SlotLength | src/data_extraction_load/archived/data_extract_load.py:186-193 | a slot length exists exactly for a known unit: n minutes, 60 n or 1440 n |
| TimeAxis.Slots | src/data_extraction_load/archived/data_extract_load.py:196-222 | the slot starts are start, start + delta, ... while before the end date: empty exactly when start >= end, evenly spaced, all in [start, end), and the last slot reaches the end date |
| TimeAxis.SlotsStep | src/data_extraction_load/archived/data_extract_load.py:201-222 | the slots after the first are the slots from start + delta |
| ArchivedLoad.IdentifyMissingPeriods | src/data_extraction_load/archived/data_extract_load.py:178-230 | the scan loop fails exactly on an unknown unit and otherwise returns the coalesced runs of missing trading slots, including a run still open at the end |
| ArchivedLoad.MissingRuns | src/data_extraction_load/archived/data_extract_load.py:195-226 | no period is reported when start >= end |
| ArchivedLoad.RunReported | src/data_extraction_load/archived/data_extract_load.py:216-226 | an open run is eventually reported, from the same start and ending no earlier |
| ArchivedLoad.StartsFrom | src/data_extraction_load/archived/data_extract_load.py:212-215 | a reported period starts at the current slot or later, or at the open run's start |
| ArchivedLoad.CoalesceCovers | src/data_extraction_load/archived/data_extract_load.py:208-226 | each missing trading slot from the current one on lies inside a reported period |
| ArchivedLoad.CoalesceExcludes | src/data_extraction_load/archived/data_extract_load.py:216-220 | no reported period overlaps a trading slot that has data |
| ArchivedLoad.CoalesceBounds | src/data_extraction_load/archived/data_extract_load.py:201-226 | reported periods are non-empty, and start and end on missing trading slots |
| ArchivedLoad.CoalesceStartsOnGrid | src/data_extraction_load/archived/data_extract_load.py:212-215 | a period starts on a slot start of the scan |
| ArchivedLoad.CoalesceEndsOnGrid | src/data_extraction_load/archived/data_extract_load.py:214-215 | a period ends on a slot end of the scan |
| ArchivedLoad.CoalesceOrdered | src/data_extraction_load/archived/data_extract_load.py:201-226 | the periods are strictly increasing |
| ArchivedLoad.CoalesceGap | src/data_extraction_load/archived/data_extract_load.py:205-220 | between two consecutive periods lies a trading slot with data that closed the first |
| ArchivedLoad.MissingRunsCover | src/data_extraction_load/archived/data_extract_load.py:208-215 | every trading slot without data in the range lies inside some reported period |
| ArchivedLoad.MissingRunsExclude | src/data_extraction_load/archived/data_extract_load.py:216-220 | no trading slot with data overlaps any reported period |
| ArchivedLoad.MissingRunsShape | src/data_extraction_load/archived/data_extract_load.py:201-226 | each period begins at a slot start before the end date, ends at a slot end, has start < end, and its first and last slots are missing trading slots |
| ArchivedLoad.MissingRunsOrdered | src/data_extraction_load/archived/data_extract_load.py:201-226 | the reported periods are increasing and pairwise disjoint |
| ArchivedLoad.MissingRunsSeparated | src/data_extraction_load/archived/data_extract_load.py:205-220 | consecutive periods are separated by a trading slot with data, so a non-trading slot or a missing slot never closes a run |
| DataExtractLoad.Weekday | src/data_extract_load/data_extract_load.py:126-129 | `date.weekday()` of a day number is in 0..6, and day 0 (1970-01-01) is a Thursday (3) |
| DataExtractLoad.WeekdayStep | src/data_extract_load/data_extract_load.py:126-129 | the next day has the next weekday, Sunday (6) wrapping round to Monday (0) |
| DataExtractLoad.WeekdayWeekly | src/data_extract_load/data_extract_load.py:126-129 | weekdays repeat every seven days |
| DataExtractLoad.IsTradingDay | src/data_extract_load/data_extract_load.py:118-134 | false on Saturday and Sunday; otherwise true exactly when the date is not a holiday |
| DataExtractLoad.TradingDayIgnoresTimeOfDay | src/data_extract_load/data_extract_load.py:126 | only the date of the timestamp matters |
| DataExtractLoad.SlotAt | src/data_extract_load/data_extract_load.py:157-160 | the slot at s is reported, as (s, s + delta), exactly when s is on a trading day and the slot holds no data |
| DataExtractLoad.MissingSlots | src/data_extract_load/data_extract_load.py:150-164 | no period is reported when start >= end |
| DataExtractLoad.IdentifyMissingPeriods | src/data_extract_load/data_extract_load.py:137-164 | the scan loop fails exactly on an unknown unit; otherwise it returns the missing slots on trading days, each one unit long by default as the caller at line 82 passes no length |
| DataExtractLoad.MissingFromIff | src/data_extract_load/data_extract_load.py:153-162 | a period is reported from the current slot on exactly when it is a slot of the range, one slot long, on a trading day and without data |
| DataExtractLoad.MissingFromOrdered | src/data_extract_load/data_extract_load.py:153-162 | the periods are increasing and start at the current slot or later |
| DataExtractLoad.MissingSlotsIff | src/data_extract_load/data_extract_load.py:150-164 | a period is reported exactly when it is a slot of the range (so it starts before the end date), has length delta, starts on a trading day and holds no data |
| DataExtractLoad.MissingSlotsOrdered | src/data_extract_load/data_extract_load.py:150-164 | the reported periods are increasing and disjoint |
| ValidateData.FindColumn | src/data_extraction_load/validate_data.py:38-45 | finds the first column with that name, or none when no column has it |
| ValidateData.CheckDtypes | src/data_extraction_load/validate_data.py:27-40 | passes exactly when every expected column exists once with its type; otherwise the error names the first failing column in declaration order |
| ValidateData.Validate | src/data_extraction_load/validate_data.py:14-47 | fails on missing values first, then on the first missing, repeated or mistyped expected column, then on a negative number in the six numeric columns; accepts exactly when none applies, and returns the table unchanged |
| ValidateData.FindColumnAppend | src/data_extraction_load/validate_data.py:38 | an appended column never hides an earlier one of the same name |
| ValidateData.RepeatedAppend | src/data_extraction_load/validate_data.py:38-39 | appending a column of another name repeats no name that was not repeated |
| ValidateData.ExtraColumnAccepted | src/data_extraction_load/validate_data.py:38-47 | appending a column with a new name and without missing values to an accepted table gives an accepted table |
| ValidateData.ExtraKeepsExpected | src/data_extraction_load/validate_data.py:38-39 | appending a column with a new name keeps each expected column in order where it was, once, with its type |
| ValidateData.RepeatedColumnRejected | src/data_extraction_load/validate_data.py:38-39 | an expected column given twice makes the table rejected; when no value is missing and every earlier expected column is in order, the error is the repeated-column one naming it |
| ValidateData.FindColumnWithCells | src/data_extraction_load/validate_data.py:38-45 | replacing a column's cells changes what a lookup finds only in those cells |
| ValidateData.RepeatedWithCells | src/data_extraction_load/validate_data.py:38-39 | replacing a column's cells repeats exactly the names that were repeated |
| ValidateData.VwapKeepsTypes | src/data_extraction_load/validate_data.py:38-40 | replacing the `vwap` cells keeps every expected column in order |
| ValidateData.VwapKeepsSigns | src/data_extraction_load/validate_data.py:43-45 | replacing the `vwap` cells does not change whether a sign-checked column holds a negative number |
| ValidateData.VwapNotChecked | src/data_extraction_load/validate_data.py:43 | an accepted table stays accepted whatever non-missing values, negative ones included, its `vwap` column holds |

## Left out

- Market-data download, DuckDB storage and retrieval, e-mail notification, logging setup, the Airflow DAG and the dashboards are I/O or foreign libraries and are not part of this model.
- The NYSE calendar is an input: the archived scan takes a sequence of trading sessions and the newer scan a set of holiday day numbers.
- Time-zone localisation of the scan bounds and the `print` of the periods are not modelled; timestamps are naive minutes.
- The process pool of `sensitivity_analysis` is modelled as a sequential, order-preserving map.
- `test_strategy_short_long_window` is not defined in the repository; the per-pair strategy is a function parameter (`assetTrace`) that yields the asset-value trace.
- The commented-out cash and shares simulation loop of the older strategy is not modelled; `cash` only feeds the unused normalisation factor and its division by the first close, and `shares_held` is unused.
- `src/common/strategy_tester.py` and the entry scripts are glue and are not modelled.
- Prices, averages and counters are real numbers, not IEEE floats; NaN, None and NaT are all one `Null` cell.
- GoldCrossDeathCross.DefaultGoldCrossDeathCross: requires both truncated windows to be at least 1; polars' behaviour for a zero or negative window is not modelled.
- StrategyConstruction.LegacyGoldCrossDeathCross: requires both truncated windows to be at least 1, for the same reason.
- MovingAverage.CalculateMovingAverages: requires both truncated windows to be at least 1, for the same reason.
- GoldCrossDeathCross.SignalForWindows: proves no upper bound of 1 on the invested fraction, because the code enforces none (two buys without a sell in between are possible).
- StrategyConstruction.SensitivityAnalysis: the window ranges are integer sequences; Python `range` objects are not modelled separately.
- StrategyConstruction.ProductAt: states the position of a combination through the recursive row offset; `StrategyConstruction.RowOffsetIsProduct` gives its value i * len(longs).
- ValidateData.FindColumn: returns the first column of a name; a name held by two columns is reported separately (`ValidateData.Repeated`), where pandas would return both columns as a table.
- TimeFrames.SetTimeFrame: the `TimeFrame` constructor's own validation of the length (it rejects lengths the data provider does not serve, such as 0, more than 59 minutes or a day length other than 1) is not modelled; the length is passed through.
- TimeFrames.SetTimeFrameOrNone: the same constructor validation is not modelled in the lenient copies either.
- TimeFrames.ToLower: lower-cases ASCII letters only; Unicode case mapping is not modelled.
- ArchivedLoad.IdentifyMissingPeriods: a non-positive slot length is allowed only when there is nothing to scan, because the loop of the source would not terminate otherwise.
- DataExtractLoad.IdentifyMissingPeriods: a non-positive slot length is allowed only when there is nothing to scan, for the same reason.
