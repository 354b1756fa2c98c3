# Parameta rolling statistics and rate conversion, in Dafny

This project models the computational core of the Parameta repository:

- three engines that compute the rolling standard deviation of bid, mid and
  ask prices per security over windows of hourly snaps;
- the converter that turns rates prices into converted prices using spot
  rates.

Every engine, every operation and every property is stated over exact values:
timestamps are whole seconds, prices are exact reals, and each record carries
the *variance* of each field. The engines report the square root of that
variance.

| file | module | models |
|---|---|---|
| `stats.dfy` | `Stats` | sums, mean, population and sample variance, and the running-sum variance formula `(sumsq - sum²/n)/n` floored at zero |
| `common.dfy` | `Common` | snaps, records, the one-hour period, hour-apart runs (the trailing run of a row) |
| `ordering.dfy` | `Ordering` | Python string order on security ids, a stable sort by timestamp, `groupby` on the security id, and the order by (security, timestamp) |
| `incremental.dfy` | `Incremental` | `stdev_solution_a.py`: class `RollingStdCalculator`, whose `_process_group` is a loop over a deque with six running sums, and `calculate`, which applies the lookback cut, groups, concatenates and keeps the range |
| `batch.dfy` | `Batch` | `stdev_solution_b.py` `process`: gap flags, block ids, a 20-row rolling sample variance per (security, block), the backward as-of join with a seven-day tolerance, and the final sort |
| `naive.dfy` | `Naive` | `stdev_solution.py` `process`: nested loops over securities and the hourly grid, the seven-day lookback `(snap - 7d, snap]`, the contiguity check and the population variance |
| `crosscheck.dfy` | `CrossCheck` | how the three engines relate |
| `rates.dfy` | `Rates` | `rates_solution.py`: class `RatesPriceConverter`, whose `process` performs the left join with the currency table, sorts the spot table, and classifies and converts row by row |

Where a source routine mutates state step by step, the model is imperative:
- `RollingStdCalculator.ProcessGroup` is a loop over the deque and its sums.
- `RollingStdCalculator.Calculate` is a loop over the groups.
- `Naive.Process` and `Naive.ScanGrid` are the two nested loops.
- `RatesPriceConverter.Process` reassigns the object's spot table and fills arrays for the two result columns in `FillRows`.

Each method is proved equal to a specification function. The properties are
then proved about those functions.

The model follows the code where it departs from its own comments and from the other engines:

- **Batch formula.** The batch engine uses pandas' default `std()`, the
  *sample* standard deviation (divisor n − 1). The other two engines use the
  population formula (divisor n). So the batch engine does not compute the
  same values as the incremental one. `CrossCheck.BatchAgainstIncremental`
  states the exact relation: v·19 = p·20 over the same 20 rows.
  `CrossCheck.AgreeOnlyWhenFlat` shows that the two values are equal exactly
  when every field's variance is zero. Otherwise the batch variance is 20/19
  of the incremental one, about 5.3% larger; the standard deviation is about
  2.6% larger.
- **Batch output rows.** The batch engine emits a row for every snap in
  `[start, end]`, carrying the latest value at most seven days old. It does
  not emit rows only where a window completes.
- **Incremental lookback.** `calculate` in `stdev_solution_a.py` keeps rows
  from one day before `start` (line 31), although its comment speaks of
  seven days. The model keeps one day.

## Model

| member | source | states |
|---|---|---|
| Stats.RunningVarianceExact | stdev_test/scripts/stdev_solution_a.py:89-96 | Over the exact sum and sum of squares of a non-empty window, the running formula `(sumsq - sum*sum/n)/n`, floored at 0, equals the population variance (mean squared deviation from the mean). The floor never changes an exact value. |
| Stats.SampleVarianceScaled | stdev_test/scripts/stdev_solution_b.py:47-58 | The sample variance of at least two values is non-negative and equals the population variance times n/(n − 1). |
| Stats.PopVarianceNonneg | stdev_test/scripts/stdev_solution.py:35 | The population variance (divisor n) of a non-empty window is never negative. |
| Stats.ConstantVariance | stdev_test/scripts/stdev_solution_a.py:85-96 | A window of identical values has variance 0, both by definition and by the running formula. |
| Common.TrailingRunLinked | stdev_test/scripts/stdev_solution_a.py:57-60 | The trailing run of rows (reset at every step other than exactly one hour) has at least k rows exactly when each of the last k rows is one hour after its predecessor. |
| Common.HourApartSpan | stdev_test/scripts/stdev_solution.py:30-31 | Hour-apart timestamps form an arithmetic progression: the j-th is the first plus j hours. |
| Ordering.StrLtTotal | stdev_test/scripts/stdev_solution_a.py:33 | Security ids compare as Python strings: any two different ids are ordered one way or the other. |
| Ordering.StrLtTransitive | stdev_test/scripts/stdev_solution_a.py:33 | The id order is transitive. |
| Ordering.SortedIds | stdev_test/scripts/stdev_solution.py:19 | The keys a `groupby` visits are strictly ascending and are exactly the ids that occur in the rows. |
| Ordering.RowsOf | stdev_test/scripts/stdev_solution.py:19 | One group holds exactly the rows with that id, a sub-multiset of the rows. |
| Ordering.SortByTs | stdev_test/scripts/stdev_solution.py:20 | Sorting by timestamp yields rows in timestamp order that are a permutation of the input. |
| Ordering.GroupOf | stdev_test/scripts/stdev_solution.py:19-20 | A sorted group is in timestamp order and is a permutation of that security's rows. |
| Ordering.ByKeySpec | stdev_test/scripts/stdev_solution_b.py:85 | The rows ordered by (security, timestamp) are a permutation of the input, sorted by security id and then timestamp. |
| Incremental.RollingStdCalculator.constructor | stdev_test/scripts/stdev_solution_a.py:20-21 | The calculator keeps the window size it is given. |
| Incremental.RollingStdCalculator.ProcessGroup | stdev_test/scripts/stdev_solution_a.py:47-116 | The deque loop with reset on gap, append, FIFO eviction and emission when full returns exactly the declarative records of the group (`GroupRecords`). |
| Incremental.PushKeepsInv | stdev_test/scripts/stdev_solution_a.py:57-82 | One step (reset, append, evict) keeps the loop invariant. The deque holds the quotes of the trailing hour-apart run, capped at the window size, and the six sums are its exact sums and sums of squares. |
| Incremental.WindowRowsFacts | stdev_test/scripts/stdev_solution_a.py:57-85 | The deque never exceeds the window size and holds hour-apart rows. It is full exactly when the trailing run reaches the window size, and it then holds the last `windowSize` rows. |
| Incremental.AppendSums | stdev_test/scripts/stdev_solution_a.py:64-72 | Adding a triple's values and squares keeps the running sums exact. |
| Incremental.EvictSums | stdev_test/scripts/stdev_solution_a.py:75-82 | Subtracting the oldest triple's values and squares keeps the running sums exact for the remaining window. |
| Incremental.RecordFromSums | stdev_test/scripts/stdev_solution_a.py:85-111 | A record is emitted exactly when the trailing run reaches the window size. Its variances, from the running sums, are the population variances of the last `windowSize` rows. |
| Incremental.FoldRecordsSpec | stdev_test/scripts/stdev_solution_a.py:54-114 | Folding the rows through the deque emits exactly the declarative records. |
| Incremental.GroupRecords | stdev_test/scripts/stdev_solution_a.py:105-111 | At most one record per row, each carrying the group's security. |
| Incremental.CompletesWindowRun | stdev_test/scripts/stdev_solution_a.py:57-85 | A row completes its window, meaning it and the `windowSize − 1` rows before it are each one hour after their predecessor, exactly when the trailing run up to it reaches the window size. |
| Incremental.GroupRecordsMembers | stdev_test/scripts/stdev_solution_a.py:85-111 | A record is emitted exactly when some row completes its window. The record carries that row's security and timestamp and the population variances of its window. |
| Incremental.GroupRecordsSorted | stdev_test/scripts/stdev_solution_a.py:54-111 | Rows in timestamp order give records in timestamp order. |
| Incremental.ShortRowsNoRecords | stdev_test/scripts/stdev_solution_a.py:85 | Fewer rows than the window size give no record. |
| Incremental.ScenarioEmission | stdev_test/scripts/stdev_solution_a.py:57-111 | With hourly rows at hours 0–3 and 5 and a window of 3, exactly the rows at hours 2 and 3 complete their windows. The two-hour gap resets the window. |
| Incremental.ScenarioFirstRecord | stdev_test/scripts/stdev_solution_a.py:85-111 | In that scenario, hour 2 (mids 10, 10, 10) gets variance 0. |
| Incremental.ScenarioSecondRecord | stdev_test/scripts/stdev_solution_a.py:85-111 | In that scenario, hour 3 (mids 10, 10, 13) gets variance 2, which is standard deviation √2. |
| Incremental.Since | stdev_test/scripts/stdev_solution_a.py:31-32 | The lookback cut keeps exactly the rows at or after the cut, each as many times as it occurs in the input, and drops every other row. |
| Incremental.Between | stdev_test/scripts/stdev_solution_a.py:43-44 | The range filter keeps exactly the records with `start <= ts <= end`, each as many times as it occurs in the input, and drops every other record. |
| Incremental.RollingStdCalculator.Calculate | stdev_test/scripts/stdev_solution_a.py:23-45 | The loop over the groups, concatenation and range filter produce `Calculated`: the one-day lookback cut, groups in ascending id order each in timestamp order, and `None` when no group emits any record. |
| Incremental.CalculatedMembers | stdev_test/scripts/stdev_solution_a.py:30-44 | A record is written exactly when its time is in `[start, end]`, its security has a row at or after `start − 1 day`, and it is a record of that security's group after the cut. |
| Incremental.CalculatedSorted | stdev_test/scripts/stdev_solution_a.py:33-44 | The written records are sorted by security id and then timestamp. |
| Batch.HistoryFirst | stdev_test/scripts/stdev_solution_b.py:41-44 | The first row of a security has gap flag 1 and block id 1. |
| Batch.HistoryNext | stdev_test/scripts/stdev_solution_b.py:41-44 | A later row's gap flag is 0 exactly when it is one hour after the previous row of its security. Its block id is the previous row's block id plus its flag. |
| Batch.BlockIdGrows | stdev_test/scripts/stdev_solution_b.py:44 | Block ids start at 1 and never decrease along a security's rows. |
| Batch.BlockMatesRun | stdev_test/scripts/stdev_solution_b.py:41-44 | The rows of a row's (security, block) up to it are exactly its trailing hour-apart run. |
| Batch.BlockHourApart | stdev_test/scripts/stdev_solution_b.py:41-44 | Within a block, consecutive timestamps are one hour apart. |
| Batch.RollingSpec | stdev_test/scripts/stdev_solution_b.py:47-58 | A row has a rolling value exactly when its block has at least 20 rows up to it. The value is then the sample variances of the last 20 rows. |
| Batch.History | stdev_test/scripts/stdev_solution_b.py:41-42 | A row's history ends in that row and contains only rows of its security. |
| Batch.StdevTableMembers | stdev_test/scripts/stdev_solution_b.py:61-66 | The table of valid values holds exactly one record per row that has a rolling value, with that row's security, timestamp and value. |
| Batch.Latest | stdev_test/scripts/stdev_solution_b.py:76-83 | The backward lookup finds a record of the snap's security at or before the snap that no other such record is later than, or `None` when there is no such record. |
| Batch.AsOfSpec | stdev_test/scripts/stdev_solution_b.py:76-83 | A snap receives a value exactly when some record of its security is at or before it and at most seven days older. The value is that of such a record that no other candidate is later than. |
| Batch.OwnValues | stdev_test/scripts/stdev_solution_b.py:69-83 | With one row per (security, timestamp), a snap whose own row has a rolling value receives exactly that value. |
| Batch.Within | stdev_test/scripts/stdev_solution_b.py:69-73 | The snaps kept are exactly those with `start <= ts <= end`, each as many times as it occurs in the frame; every other snap is dropped. |
| Batch.ProcessSpec | stdev_test/scripts/stdev_solution_b.py:69-85 | The output has one row per snap in `[start, end]`, a permutation of them sorted by security and then timestamp. Each row carries its snap's as-of value. |
| Naive.GridMembers | stdev_test/scripts/stdev_solution.py:17 | The hourly grid holds exactly the times from `start` through `end` that are a whole number of hours after `start`. |
| Naive.GridAscending | stdev_test/scripts/stdev_solution.py:17 | Grid hours strictly increase. |
| Naive.LookbackMembers | stdev_test/scripts/stdev_solution.py:24-25 | The lookback holds exactly the samples with `snap − 7 days < ts <= snap`. |
| Naive.LookbackSorted | stdev_test/scripts/stdev_solution.py:20-25 | The lookback of a group in timestamp order is in timestamp order. |
| Naive.LookbackLatest | stdev_test/scripts/stdev_solution.py:25-30 | The last sample of the lookback is a latest sample of the group not after the grid hour, so `tail(window)` takes the most recent samples. |
| Naive.ScanGrid | stdev_test/scripts/stdev_solution.py:22-36 | The inner loop over the grid returns exactly that security's records, in grid order (`SnapRecords`). |
| Naive.Process | stdev_test/scripts/stdev_solution.py:14-37 | The nested loops return exactly `Processed`: every security in ascending order and, within it, every grid hour. |
| Naive.ProcessedMembers | stdev_test/scripts/stdev_solution.py:19-36 | A record is output exactly when its security occurs in the data, its time is a grid hour in `[start, end]`, and the lookback there has at least `window` samples whose last `window` are hour-apart. The record carries their population variances. |
| Naive.ProcessedOrder | stdev_test/scripts/stdev_solution.py:19-37 | The output is strictly ordered by security and then time, so there is at most one record per (security, grid hour). |
| Naive.RecordWithoutOwnSample | stdev_test/scripts/stdev_solution.py:22-36 | A record can fall on a grid hour at which the security has no sample. Samples at t − 1h and t give a window-2 record at t + 1h. |
| CrossCheck.BatchAgainstIncremental | stdev_test/scripts/stdev_solution_b.py:47-58 | The batch engine has a value for a row exactly when the incremental engine (window 20) emits a record for it. Field by field, the batch value v and the record's variance p satisfy v·19 = p·20. |
| CrossCheck.AgreeOnlyWhenFlat | stdev_test/scripts/stdev_solution_b.py:47-58 | The batch value equals the incremental record's variance exactly when that variance is zero in every field. |
| CrossCheck.RescaledTriple | stdev_test/scripts/stdev_solution_b.py:49 | Field by field, the sample variances are the population variances rescaled by n/(n − 1). |
| CrossCheck.NaiveAgainstIncremental | stdev_test/scripts/stdev_solution.py:24-35 | At the time of one of a security's own samples, for strictly increasing timestamps and a window of at most 168 samples, the naive engine gives a value exactly when the incremental engine emits a record for that sample. The value is that record's variance. |
| Rates.MatchesMembers | rates_test/scripts/rates_solution.py:23 | The join partners of a price row are exactly the currency rows with its pair. |
| Rates.LookupMembers | rates_test/scripts/rates_solution.py:23 | A pair finds no currency row exactly when the table has none for it. Otherwise it finds one with that pair, and with unique pairs it finds that pair's row. |
| Rates.MergeOneToOne | rates_test/scripts/rates_solution.py:23 | With unique pairs, the left join keeps one row per price row, in order, each carrying its pair's currency row, or none (`left_only`). |
| Rates.FloorHour | rates_test/scripts/rates_solution.py:41 | `floor('h')` is the whole hour at or before the time, less than an hour before it. |
| Rates.WindowBounds | rates_test/scripts/rates_solution.py:41-42 | The spot window contains every spot of the last hour, and nothing two hours old or more, or after the row's time. |
| Rates.CandidatesMembers | rates_test/scripts/rates_solution.py:41-43 | The candidates are exactly the spot rows of the pair in `(floor(ts) − 1h, ts]`. |
| Rates.SortSpots | rates_test/scripts/rates_solution.py:27 | The sorted spot table is ordered by pair and then timestamp and is a permutation of the spot rows. |
| Rates.CandidatesAscending | rates_test/scripts/rates_solution.py:27-43 | In the sorted spot table, a row's candidates are in timestamp order. |
| Rates.LatestIsLast | rates_test/scripts/rates_solution.py:47 | For candidates in timestamp order, the last one (`iloc[-1]`) has the latest timestamp. |
| Rates.ConvertRow | rates_test/scripts/rates_solution.py:30-50 | Every row keeps its pair, time and price and ends with one of the four reasons, never the initial empty one. |
| Rates.UnsupportedRow | rates_test/scripts/rates_solution.py:33-35 | A row is "not supported" exactly when its pair is missing from the currency table or lacks a setting. It then has no new price. |
| Rates.UnconvertedRow | rates_test/scripts/rates_solution.py:36-39 | A row gets "no conversion required" exactly when its pair is supported and not to be converted. Its new price is then its price. |
| Rates.NoSpotRow | rates_test/scripts/rates_solution.py:44-46 | A row gets "no spot rate" exactly when it must be converted and no spot row of its pair is in the window. It then has no new price. |
| Rates.ConvertedRow | rates_test/scripts/rates_solution.py:47-50 | A row is "converted" exactly when it must be converted and some spot row is in its window. Its new price is `price / factor + mid` of a latest spot row of the window. |
| Rates.LaterSpotsIgnored | rates_test/scripts/rates_solution.py:41-43 | Spot rows after a row's time change nothing for that row. |
| Rates.ConvertedWithLast | rates_test/scripts/rates_solution.py:47-50 | Over the sorted spot table, converting with the last candidate gives the specified row. |
| Rates.HandleRow | rates_test/scripts/rates_solution.py:31-50 | The branches of one loop iteration set the new price and reason that `ConvertRow` specifies. |
| Rates.ReadyReordered | rates_test/scripts/rates_solution.py:27-29 | Reordering the spot table keeps every row convertible. |
| Rates.FillRows | rates_test/scripts/rates_solution.py:24-51 | Starting from missing new prices and empty reasons, the row loop fills both columns, producing exactly `Output`. |
| Rates.OutputShape | rates_test/scripts/rates_solution.py:23-51 | With unique pairs, the output has one row per price row, in order, with that row's pair, time and price and a non-empty reason. |
| Rates.RatesPriceConverter.constructor | rates_test/scripts/rates_solution.py:14-19 | The converter holds the three loaded tables. |
| Rates.RatesPriceConverter.Process | rates_test/scripts/rates_solution.py:21-51 | `process` leaves the currency and price tables unchanged and replaces the spot table by its sorted copy. It returns the conversion of every merged row over that table. |

## Left out

- File input and output (`load_data`, `read_parquet`, `read_csv`, `to_csv`, `save`, the `__main__` blocks and their timing). The tables are parameters: sequences of rows.
- Timestamps are whole seconds. Parsing dates and `pd.to_datetime` are not modelled.
- Floating point. Prices are exact reals, so there is no rounding, and the `max(0, …)` floor in `_process_group` never fires (`Stats.RunningVarianceExact`). The NaN guard at `stdev_solution_a.py:104` never applies. Division by a zero conversion factor is excluded (see below).
- Square roots. Records carry variances; every engine's standard deviation is the square root of the modelled variance.
- Missing prices. `dropna` in `calculate` (`stdev_solution_a.py:36`) is the identity, because a modelled snap always has all three prices.
- The state-persisting calculator named in the repository's comparison code is not part of this model. Neither is that code's comparison of two engines within a relative tolerance of 0.1%.
- The unused `mask` in `stdev_solution.py:16`.
- Tie order. The model sorts stably. pandas' default sort is not stable, so rows with equal (security, timestamp), or spot rows with equal (pair, timestamp), may come out in another order.
- `drop_duplicates` and `sort_values` on the table of valid values (`stdev_solution_b.py:64-65`) are not modelled separately. The backward lookup picks a latest candidate whatever the table order, and identical records cannot be told apart.
- Incremental.RollingStdCalculator.ProcessGroup: requires a window size of at least 1. With 0 the source divides by zero.
- Incremental.RollingStdCalculator.Calculate: requires a window size of at least 1. `None` stands for the source raising when no group produces any record.
- Naive.Process: requires a window of at least 1. With 0 the source emits a NaN row for every grid hour.
- Naive.ScanGrid: requires a window of at least 1, for the same reason.
- Rates.RatesPriceConverter.Process: requires every row to be converted to have a non-zero factor, since the model has no infinity. It also requires its pair to have at least one spot row, where the source's `get_group` raises.
- Rates.OutputShape: stated for a currency table with unique pairs. `Merge` itself models duplicate pairs, which repeat the price row.
- Batch.OwnValues: requires one row per (security, timestamp). Otherwise the lookup may pick a duplicate key's record.
- CrossCheck.NaiveAgainstIncremental: stated for strictly increasing timestamps and windows of at most 168 samples, whose span of window − 1 hours lies inside the seven-day lookback.
