# Transaction heatmap aggregation, modelled in Dafny

This project models the aggregation engine of the `TransactionHeatmap`
component of a Solana wallet-activity viewer. From a flat list of
transactions and the current time, the component computes:

- a map from calendar day to that day's transactions;
- a grid of 53 × 7 = 371 day buckets. The grid starts on the Sunday 52 weeks
  before the current week, and each bucket carries a count, its transactions,
  a weekday and a week index;
- an intensity tier 0..4 for each count;
- 53 week columns, and month labels placed above the columns by a single pass
  that carries the last labelled month;
- the summary figures: total and one-year transaction counts, active days,
  busiest day, `maxCount`, total fees and today's fees.

Time is modelled in whole UTC days:

- A day is an integer, the number of days since 1970-01-01. Day 0 is a
  Thursday, so the weekday of day `d` is `(d + 4) % 7`, with Sunday = 0.
- A transaction's time value is its `block_time` (microseconds) divided by
  1000 and truncated toward zero, as the `Date` constructor does
  (`Transactions.TimeValue`).
- The transaction's day is that time value floor-divided by 86 400 000
  (`Transactions.DayKey`). This is the calendar date that `toISOString`
  prints.
- The component keys its map by the ISO 8601 calendar-date string
  `YYYY-MM-DD`. That string is one-to-one with the day, so the model keys by
  the day number itself.
- Clock readings are parameters. The grid is memoised on the transaction
  list (line 82), so a render may reuse a grid built under an earlier
  reading. `Heatmap.Render` therefore takes two readings: `gridNowMs` for
  the grid (line 56) and `nowMs` for today's fees and the one-year cut-off
  (lines 94 and 105). Today is the day of a reading.

Month and day of the month come from a proleptic Gregorian calendar
(module `Calendar`):

- `DaysFromCivil` is a closed-form day number with floor-division leap
  counts.
- `CivilFromDays` computes the inverse with a 400-year cycle, then a walk by
  years and then by months. It is proved to invert `DaysFromCivil` in both
  directions.
- `DateOf` is the specification: the one valid date with a given day number.

The methods follow the source's loops:

- `HeatmapGrid.GroupByDay` is the grouping `forEach` over a map.
- `HeatmapGrid.HeatmapData` is the 371-step bucket loop.
- `MonthLabels.SplitWeeks` is the week loop.
- `MonthLabels.PlaceMonthLabels` is the label pass with its mutable
  `currentMonth`.
- `Heatmap.Render` runs them all in one render. Once the grid exists, the
  figures, the week columns and the labels do not depend on each other, so
  their order does not matter. In the component, active days and busiest
  day are computed inside the JSX (lines 177, 314, 319), after the label
  pass.

Each method is proved against a specification function: `GroupByDay`
against the day lists `OnDay`, `HeatmapData` against `Grid`, `SplitWeeks`
against `WeekOf`, `PlaceMonthLabels` against `Labels`, and `Render`
against all of these and `Summarize`. The properties are lemmas about those functions.

Three facts about the code that are worth stating:

- **The one-year count.** It starts one *calendar* year back,
  `setFullYear(year - 1)` (line 106), not 365 days back. On 29 February the
  earlier year's date runs on to 1 March, as `MakeDay` does.
  `Calendar.OneYearBeforeSpan` proves that the window reaches back 365 or
  366 days.
- **The month-label pass.** On Sunday-aligned columns the
  `month !== currentMonth` guard (line 162) never holds a label back.
  `MonthLabels.LabelsOnOpeningColumns` proves that a column is labelled
  exactly when its Sunday falls on day 1..7 of its month.
- **Two values are never shown.** `maxCount` (line 84) and today's fees
  (lines 94-103) are computed but never displayed. A cell's colour comes
  from the fixed tiers of `getIntensity` (lines 249-250), not from
  `maxCount`. The stat cards (lines 300-334) show the total count, the
  one-year count, active days, busiest day, daily average and total fees.
  The model computes and proves both values all the same.

Also worth noting: the "days with transactions in the last year" figure
counts over the whole 371-day grid, which reaches back 364 to 370 days.

## Model

| member | source | states |
|---|---|---|
| Calendar.CivilFromDays | components/TransactionHeatmap.tsx:161-162 | the computed civil date of a day is a valid date (month 0..11, day within the month's length) whose day number is that day |
| Calendar.DateOf | components/TransactionHeatmap.tsx:161-162 | the specified civil date of a day: a valid date with that day number |
| Calendar.CivilUnique | components/TransactionHeatmap.tsx:161-162 | two valid dates with the same day number are the same date |
| Calendar.CivilRoundTrip | components/TransactionHeatmap.tsx:161-162 | converting a valid date to its day number and back gives the date again |
| Calendar.CivilFromDaysIsDateOf | components/TransactionHeatmap.tsx:161-162 | the computed conversion agrees with the specified date on every day |
| Calendar.DaysFromCivil | components/TransactionHeatmap.tsx:59 | `MakeDay` behind `setDate` and `setFullYear` (also lines 66, 106): the day number of a date is the days of the years before it (365 each plus the Gregorian leap days), plus the days of the months before it, plus the day of the month minus 1, counted from 1970-01-01 |
| Calendar.EpochIsJanuaryFirst1970 | components/TransactionHeatmap.tsx:48-49 | day 0 of the time scale is 1970-01-01 |
| Calendar.MonthOf | components/TransactionHeatmap.tsx:161 | `getMonth` is in 0..11 |
| Calendar.DayOfMonth | components/TransactionHeatmap.tsx:162 | `getDate` is in 1..31 |
| Calendar.Weekday | components/TransactionHeatmap.tsx:57 | `getDay` is in 0..6 |
| Calendar.OneYearBeforeSpan | components/TransactionHeatmap.tsx:105-106 | the instant one calendar year before now lies 365 or 366 days earlier |
| Calendar.YearBackSpan | components/TransactionHeatmap.tsx:105-106 | moving a valid date to the same month and day of the previous year moves it 365 or 366 days back, Feb 29 included |
| Calendar.OneYearBefore | components/TransactionHeatmap.tsx:105-106 | `setFullYear(year - 1)` keeps the time of day and moves to the day number of the same month and day of the month in the previous year (the specified date, with 29 February running on to 1 March) |
| Calendar.LaterInMonth | components/TransactionHeatmap.tsx:162 | moving `t` days forward within a month keeps the year and month and adds `t` to the day of the month |
| Calendar.FirstOfNextMonth | components/TransactionHeatmap.tsx:162 | the first of the next month is valid, has the next month number (December wraps to January) and lies the rest of the month's days later |
| Calendar.NextFirstWeekChangesMonth | components/TransactionHeatmap.tsx:162 | stepping in whole weeks from a day among the first seven of its month, the next such day falls in a different month |
| Seqs.Filter | components/TransactionHeatmap.tsx:149 | `filter` keeps exactly the elements satisfying the condition and never lengthens the list |
| Seqs.FilterConcat | components/TransactionHeatmap.tsx:96-101 | filtering keeps input order: the filter of a concatenation is the concatenation of the filters |
| Seqs.FilterKeepsAll | components/TransactionHeatmap.tsx:45-79 | nothing is dropped exactly when every element satisfies the condition; the grid uses it to count the transactions whose day lies in the window |
| Seqs.FilterWeaker | components/TransactionHeatmap.tsx:108-111 | a weaker condition keeps at least as many elements |
| Seqs.FilterAll | components/TransactionHeatmap.tsx:96-101 | a condition every element satisfies keeps the whole sequence, in order |
| Transactions.TimeValue | components/TransactionHeatmap.tsx:48 | `new Date(block_time / 1000)`: the millisecond time value is `block_time / 1000` truncated toward zero, for both signs |
| Transactions.DayKey | components/TransactionHeatmap.tsx:48-49 | the day key is the floor of the time value in days: its day starts at or before the time value and the next day starts after it (also lines 97-99) |
| Transactions.Fee | components/TransactionHeatmap.tsx:88 | `raw_transaction?.meta?.fee ?? 0`: the recorded fee when raw transaction, meta and fee are all present, and 0 otherwise (also line 102) |
| Transactions.OnDay | components/TransactionHeatmap.tsx:47-54 | the day list of a day: the input's transactions whose day key is that day, in input order (also today's filter, lines 96-101) |
| Transactions.OnDayMembers | components/TransactionHeatmap.tsx:47-54 | a transaction is listed under a day exactly when it is in the input and has that day key |
| Transactions.OnDayConcat | components/TransactionHeatmap.tsx:47-54 | each day's list keeps input order across a concatenation of inputs |
| Transactions.SameDayPair | components/TransactionHeatmap.tsx:47-54 | two transactions with the same day key are listed together, in input order |
| Transactions.OnDayNone | components/TransactionHeatmap.tsx:96-101 | a day on which no transaction falls has an empty list |
| Transactions.OnDayAll | components/TransactionHeatmap.tsx:96-101 | when every transaction falls on a day, that day's list is the whole input in order |
| Transactions.OnDayExtremes | components/TransactionHeatmap.tsx:96-101 | without preconditions: a day no transaction falls on has an empty list, and a day every transaction falls on has the whole input |
| HeatmapGrid.GroupByDay | components/TransactionHeatmap.tsx:45-54 | the grouping loop yields a map whose keys are exactly the days that have transactions, each mapped to that day's transactions in input order |
| HeatmapGrid.GroupPush | components/TransactionHeatmap.tsx:50-53 | pushing one transaction onto its day's list, created when missing, turns a map holding the day lists of a prefix into one holding those of the prefix with that transaction appended |
| HeatmapGrid.GroupedHoldsDays | components/TransactionHeatmap.tsx:45-54 | the map the grouping pass builds transaction by transaction has as keys exactly the days with transactions, and each key maps to that day's transactions in input order |
| HeatmapGrid.Bucket | components/TransactionHeatmap.tsx:65-78 | bucket `i`: the day `i` days after the start, with count, transactions, weekday and week index `i / 7` |
| HeatmapGrid.Grid | components/TransactionHeatmap.tsx:61-64 | the grid has 371 buckets for every input, the empty list included |
| HeatmapGrid.HeatmapData | components/TransactionHeatmap.tsx:44-82 | the memoised loop builds exactly the specified grid of 371 buckets |
| HeatmapGrid.GridStart | components/TransactionHeatmap.tsx:56-59 | the grid start is a Sunday 364 to 370 days before today, which fixes it uniquely |
| HeatmapGrid.SameWeekSameGrid | components/TransactionHeatmap.tsx:56-82 | the grid depends on the day only through its start, so two days with the same grid start give the same grid |
| HeatmapGrid.GridColumns | components/TransactionHeatmap.tsx:64-79 | bucket `i` has week index `i / 7` < 53 and weekday `i % 7`, so each column runs Sunday to Saturday |
| HeatmapGrid.TodayInGrid | components/TransactionHeatmap.tsx:56-68 | today's bucket is at index 364 + weekday(today) ≤ 370 and holds today's transactions |
| HeatmapGrid.GridDays | components/TransactionHeatmap.tsx:64-66 | the buckets are consecutive days, so their days are pairwise distinct |
| HeatmapGrid.BucketContents | components/TransactionHeatmap.tsx:68-75 | a bucket's count is the length of its list, and the list holds a transaction exactly when it is in the input with the bucket's day |
| HeatmapGrid.AtMostOneBucket | components/TransactionHeatmap.tsx:45-79 | a transaction lands in at most one bucket |
| HeatmapGrid.GridCountTotal | components/TransactionHeatmap.tsx:45-79 | the bucket counts sum to the number of transactions whose day is in the window, which is at most the input length, with equality exactly when every transaction's day is in the window |
| MonthLabels.SplitWeeks | components/TransactionHeatmap.tsx:147-151 | the week loop yields 53 columns, column `w` holding the days with week index `w` |
| MonthLabels.WeekOfMembers | components/TransactionHeatmap.tsx:149 | a day is in column `w` exactly when it is one of the days and has week index `w` |
| MonthLabels.WeekOfSlice | components/TransactionHeatmap.tsx:149 | on a grid-numbered list of 371 days, week `w` is the slice of its seven days |
| MonthLabels.GridWeeks | components/TransactionHeatmap.tsx:147-151 | grid column `w` is its seven buckets, with weekdays 0..6 in order, starting on the Sunday `7 * w` days after the grid start |
| MonthLabels.LabelPass | components/TransactionHeatmap.tsx:156-170 | the label pass over the first `n` columns: the labels so far and the carried month, with a label added for a non-empty column whose first day is among the first seven of its month and whose month differs from the carried one |
| MonthLabels.PlaceMonthLabels | components/TransactionHeatmap.tsx:156-170 | the label loop with its mutable current month yields exactly the specified label list |
| MonthLabels.Labels | components/TransactionHeatmap.tsx:156-170 | the specified labels sit on existing columns, left to right with strictly increasing week indices |
| MonthLabels.MonthNamesDistinct | components/TransactionHeatmap.tsx:153 | different month numbers have different abbreviations |
| MonthLabels.LabelsWellPlaced | components/TransactionHeatmap.tsx:156-170 | every label sits on an existing column whose first day is among the first seven of its month and names that day's month; the carried month is that of the last label, or -1 before the first |
| MonthLabels.LabelsIncrease | components/TransactionHeatmap.tsx:158-166 | label week indices strictly increase |
| MonthLabels.LabelsChangeMonth | components/TransactionHeatmap.tsx:162-167 | consecutive labels name different months |
| MonthLabels.LabelsOnOpeningColumns | components/TransactionHeatmap.tsx:156-170 | on Sunday-aligned columns, a column is labelled exactly when its Sunday is among the first seven days of its month (the month check never suppresses a label), and the carried month is that of the last such column |
| MonthLabels.GridSundayColumns | components/TransactionHeatmap.tsx:147-151 | the grid's week columns are non-empty and begin on the Sundays `7 * w` days after the grid start |
| MonthLabels.LabelNamesColumnMonth | components/TransactionHeatmap.tsx:163-165 | the given label names the month of its column's Sunday |
| MonthLabels.LabelsNameColumnMonth | components/TransactionHeatmap.tsx:163-165 | every label names the month of its column's Sunday |
| MonthLabels.GridMonthLabels | components/TransactionHeatmap.tsx:156-170 | on the heatmap's 53 columns, column `w` is labelled exactly when the grid start plus `7 * w` days is among the first seven days of its month |
| MonthLabels.GridLabelMonths | components/TransactionHeatmap.tsx:161-165 | on the heatmap's columns, each label names the month of its column's Sunday |
| Statistics.Intensity | components/TransactionHeatmap.tsx:114-120 | the tier is in 0..4 and is the one whose count range (0, 1, 2–3, 4–6, ≥7) holds the count |
| Statistics.IntensityMonotone | components/TransactionHeatmap.tsx:114-120 | a larger count never gets a lower tier |
| Statistics.ActiveDays | components/TransactionHeatmap.tsx:314 | the active-day count never exceeds the number of buckets |
| Statistics.ActiveDaysZero | components/TransactionHeatmap.tsx:314 | there are no active days exactly when every count is 0 |
| Statistics.ActiveDaysAtMostSum | components/TransactionHeatmap.tsx:314 | active days are at most the sum of the counts |
| Statistics.GridActiveDays | components/TransactionHeatmap.tsx:177 | the grid has at most 371 active days and at most as many as there are transactions |
| Statistics.PeakCount | components/TransactionHeatmap.tsx:319 | the busiest day's count is at least every bucket count and equals one of them |
| Statistics.MaxCount | components/TransactionHeatmap.tsx:84 | `maxCount` is at least 1 and at least every count, and is either 1 or one of the counts |
| Statistics.TotalFees | components/TransactionHeatmap.tsx:86-90 | the fee sum is 0 when every fee is 0; with non-negative fees it is non-negative and at least each single fee |
| Statistics.TodayFees | components/TransactionHeatmap.tsx:94-102 | today's fees are 0 when no transaction is from today, and the total fees when every one is |
| Statistics.TotalFeesConcat | components/TransactionHeatmap.tsx:86-90 | the fee sum of a concatenation is the sum of the fee sums |
| Statistics.FilteredFeesAtMostTotal | components/TransactionHeatmap.tsx:95-102 | with non-negative fees, the fees of any filtered part lie between 0 and the total |
| Statistics.TodayFeesAtMostTotal | components/TransactionHeatmap.tsx:86-103 | with non-negative fees, today's fees lie between 0 and the total fees |
| Statistics.TodayFeesInGrid | components/TransactionHeatmap.tsx:94-102 | today's fees are the fees of the transactions in today's grid bucket |
| Statistics.Since | components/TransactionHeatmap.tsx:108-111 | the transactions whose time value is at or after the one-year cut-off, in input order |
| Statistics.YearCount | components/TransactionHeatmap.tsx:108-111 | the one-year count is at most the number of transactions |
| Statistics.YearCountWindow | components/TransactionHeatmap.tsx:105-111 | the one-year count includes every transaction of the last 365 days and none older than 366 days |
| Statistics.Summarize | components/TransactionHeatmap.tsx:84-111 | the figures, four of them shown on the stat cards of lines 300-334: the total count is the input length, the one-year count is at most that, active days are at most the number of buckets, and `maxCount` is the busiest count floored at 1 |
| Statistics.SummaryConsistent | components/TransactionHeatmap.tsx:84-111 | with the stat cards of lines 300-334 in view, for a grid built on any day, including one reused from an earlier render, the figures agree: active days and the one-year count do not exceed the total, active days do not exceed 371, `maxCount` is the busiest count floored at 1, and with non-negative fees today's fees lie between 0 and the total |
| Statistics.EmptyInput | components/TransactionHeatmap.tsx:44-111 | an empty list gives an all-zero grid, whatever day it was built for, and zero figures, with `maxCount` 1 |
| Heatmap.Render | components/TransactionHeatmap.tsx:44-170 | one render computes the specified grid for the memoised clock reading, the specified figures for the current reading, the 53 week columns and the specified labels |
| Heatmap.TodayFeesMatchGrid | components/TransactionHeatmap.tsx:56-103 | while the grid was built in the current Sunday-to-Saturday week (same grid start), today's fee figure is the fee sum of the grid bucket at 364 + weekday |
| Heatmap.StaleGridMissesToday | components/TransactionHeatmap.tsx:44-94 | once the grid was built in an earlier week (earlier grid start), every bucket of the reused grid is a day before today |

## Left out

- The JSX rendering, tooltips and hover state are presentation only (components/TransactionHeatmap.tsx:172-354). So are the `getColorClass` table and the `formatDate` / `formatTime` locale formatting (lines 122-145). The cell lookup `week.find(d => d.dayOfWeek === dayOfWeek)` (line 234) is not modelled. `MonthLabels.GridWeeks` proves that column `w`'s day `j` has weekday `j`, so that lookup always finds a cell.
- Floating-point display is left out because the model keeps integers: fees are summed in integer lamports, with no `/ 1e9` or `toFixed(4)` (lines 91, 103). The daily average `length / 365` with `toFixed(1)` (lines 325-327) is not modelled.
- Statistics.TotalFeesConcat: fees are unbounded integers, so the loss of exactness of JavaScript numbers above 2^53 is not modelled.
- Time zones and daylight saving are not modelled; the model uses UTC throughout. The source mixes time zones: the keys use UTC through `toISOString` (lines 49, 67, 94), while `getDay`, `setDate`, `getMonth`, `getDate` and `setFullYear` use local time (lines 57, 59, 66, 69, 106, 161-162).
- The grid start keeps the current time of day. In UTC that never changes which day a bucket is, so the model keeps only day numbers for bucket dates.
- The `RangeError` that `toISOString` throws for time values beyond ±8.64e15 ms is not modelled, nor the `NaN` time of a non-numeric `block_time`: every integer time is treated as a valid date.
- Heatmap.Render: the three clock reads at lines 56, 94 and 105 become two readings. The reads at lines 94 and 105 run in the same render, so the model gives both the reading `nowMs`; the memoised read at line 56 gets `gridNowMs`.
- Statistics.PeakCount: requires a non-empty list. The source calls `Math.max` only on the 371-bucket grid, so `-Infinity` from an empty call is never shown.
- app/api/get-transactions/route.ts is not part of this model: it is a network pass-through proxy.
- app/page.tsx is not part of this model: it holds request caching, refetching and loading timers, which are asynchronous UI state.
- app/layout.tsx, components/Footer.tsx and components/Provider.tsx are not part of this model: they hold layout, theming and provider wiring.
