# Incremental price and macro updater, modelled in Dafny

The repository is a single ETL script, `update_database.py`, that keeps a
local SQLite store up to date. Two procedures do the work:

- **`update_daily_prices`** walks `securities_master`. For each security it
  reads the watermark `MAX(price_date)`. It resumes the day after that
  watermark, or on 2002-01-01 when nothing is stored. It skips the security
  when that start date is not before today, compared as `YYYY-MM-DD` text.
  Otherwise it downloads the daily bars. It keeps the bars with
  `Close > 0`, `High >= Open` and `High >= Close`, tags them with the
  security id, and writes them with `INSERT OR IGNORE` on
  `(security_id, price_date)`. It commits after each security.
- **`update_macro_data`** fetches the twelve configured FRED series in
  order. It outer-joins them on date and sorts the index, then
  forward-fills every column. It derives four `pct_change(periods=365) * 100`
  growth rates and the BTP-Bund spread. It drops the four raw index columns
  and the Bund yield, drops every row with a missing cell, and replaces the
  `macro_data` table with the result.

The model is split into modules that follow these steps:

| file | module | what it holds |
|---|---|---|
| `wrappers.dfy` | `Wrappers` | `Option`; `None` also stands for "an exception was raised here" |
| `dates.dfy` | `Dates` | calendar dates as Python has them, `NextDay`, the `%Y-%m-%d` text and Python's `str` order |
| `masks.dfy` | `Masks` | pandas boolean-mask row selection `df[mask]` |
| `price_rows.dfy` | `PriceRows` | start date, skip test, bar filter, id tagging |
| `price_table.dfy` | `PriceStore` | the `daily_prices` table as a class, insert-or-ignore, the watermark query, the loop over securities |
| `macro_frame.dfy` | `MacroFrame` | data frames with a possibly named index: outer join, forward fill, percent change, spread, column access, `drop`, `dropna` |
| `macro_derive.dfy` | `MacroDerive` | the derivation steps for any column names, and what `dropna` leaves of them |
| `macro_update.dfy` | `MacroUpdate` | the series map, the whole macro pipeline, the fetch loop and the table replace |

Prices and indicator values are Dafny `real`s. Floating point is not
modelled. A missing cell (pandas' `NaN`) is `None`. The providers
(`yf.download`, `pdr.get_data_fred`) are function parameters, and so is
the current date.

Where the code and the design prose differ, the model follows the code:

- The `try` at update_database.py:29-67 encloses the whole loop over
  securities. So the first exception ends the loop and no later security is
  processed; there is no per-security recovery. What was committed for the
  earlier securities stays (`PriceStore.RunAbortedAt`, `PriceStore.AbortPersists`).
- The bar filter never reads `Low` (`PriceRows.FilterIgnoresLow`).
- The write at update_database.py:105-107 renames only a column called
  `index`. `reset_index` names the new column after the index, so a date
  index with its own name (pandas-datareader's FRED reader calls it `DATE`)
  leaves no `data_date` column, line 107 raises KeyError, and `macro_data`
  is not replaced (`MacroUpdate.NamedIndexNotWritten`). The providers' index
  name is therefore part of the model.
- The growth rates look back 365 rows of the joined date index, not 365
  calendar days (`MacroFrame.PctChange`).

## Model

Several definitions carry the model. None of them has a row of its own; the rows named after each one state what it does.
- `PriceRows.ShouldSkip` is update_database.py:45-46. See `ShouldSkipIsChronological`.
- `PriceRows.FilterBars` is update_database.py:53-54. See `FilterBarsSpec` and `FilterBarsMembers`.
- `PriceRows.Batch` is update_database.py:53-61. See `BatchAt`, `BatchSound` and `BatchComplete`.
- `PriceStore.InsertAll` is update_database.py:63-64. See the `InsertAll…` lemmas and `PriceTable.InsertOrIgnore`.
- `PriceStore.Step` is update_database.py:34-65. See the `Step…` lemmas and `PriceTable.UpdateSecurity`.
- `PriceStore.Run` is update_database.py:29-67. See the `Run…` lemmas, `SecondRunAddsNothing` and `PriceTable.UpdateDailyPrices`.
- `MacroFrame.Lookup` is update_database.py:90. See `LookupSpec`.
- `MacroUpdate.ToTable` is update_database.py:105-108. See `ToTableDefined` and `ToTableSpec`.
- `MacroUpdate.MacroRunTable` is update_database.py:80-108. See `MacroRunTableDefined`, `NamedIndexNotWritten`, `UnnamedIndexWritten` and `MacroStore.UpdateMacroData`.

| member | source | states |
|---|---|---|
| `Dates.NextDay` | update_database.py:42-43 | the day after a valid date is a valid date strictly later than it; it fails (Python's OverflowError) exactly at 9999-12-31 |
| `Dates.NextDayIsSuccessor` | update_database.py:43 | no valid date lies strictly between a date and its next day |
| `Dates.Format` | update_database.py:43 | `strftime('%Y-%m-%d')` is ten characters with dashes at positions 4 and 7 |
| `Dates.PaddedOrder` | update_database.py:43 | zero-padded decimal fields of one width compare as text exactly as they compare as numbers, and are equal exactly when the numbers are |
| `Dates.FormatOrder` | update_database.py:45 | on valid dates, `Format(a) < Format(b)` as Python `str` exactly when `a` is chronologically before `b`, and the texts are equal exactly when the dates are |
| `Masks.Kept` | update_database.py:53-54 | the positions a boolean mask keeps are ascending, all true in the mask, and include every true position |
| `Masks.Select` | update_database.py:53-54 | `s[mask]` is `s` read at the kept positions, in order |
| `Masks.FilterSpec` | update_database.py:53-54 | a filter keeps an element exactly when the predicate holds, in the original order |
| `Masks.FilterMembers` | update_database.py:53-54 | an element is in the filtered sequence exactly when it is in the input and satisfies the predicate |
| `Masks.FilterTwice` | update_database.py:53-54 | two successive mask filters equal one filter on the conjunction |
| `PriceRows.StartDate` | update_database.py:39-43 | with no stored rows the start is 2002-01-01; otherwise it is a valid date strictly after the watermark with no valid date in between; past 9999-12-31 it fails |
| `PriceRows.ShouldSkipIsChronological` | update_database.py:45-46 | the text test `start >= today` skips exactly when the start is not chronologically before today |
| `PriceRows.CurrentIsSkipped` | update_database.py:39-46 | a security whose watermark is today or later is skipped |
| `PriceRows.FilterBarsSpec` | update_database.py:53-54 | the two filters equal one filter on `close > 0 ∧ high ≥ open ∧ high ≥ close`; survivors keep their order; a bar is kept exactly when it meets all three conditions |
| `PriceRows.FilterBarsMembers` | update_database.py:53-54 | every kept bar meets the three conditions and every fetched bar that meets them is kept |
| `PriceRows.FilterIgnoresLow` | update_database.py:54 | changing the `low` of any bar does not change which bars are kept |
| `PriceRows.BarOfToRow` | update_database.py:56-61 | tagging a bar with an id and reading the bar back gives the same bar, and the row carries the id |
| `PriceRows.BatchAt` | update_database.py:56-61 | the insert batch row at each position carries the security id, and its other fields are the kept bar at that position, unchanged |
| `PriceRows.BatchSound` | update_database.py:53-61 | every batch row carries the security id and comes from a fetched bar that passes the filter |
| `PriceRows.BatchComplete` | update_database.py:53-61 | every fetched bar that passes the filter is in the batch, tagged with the id |
| `PriceStore.WellKeyedNoDuplicates` | update_database.py:63-64 | in a well-keyed table no two rows share `(security_id, price_date)` |
| `PriceStore.InsertAllKeeps` | update_database.py:63-64 | rows already present are never overwritten or removed by insert-or-ignore |
| `PriceStore.InsertAllKeys` | update_database.py:63-64 | the keys afterwards are exactly the old keys plus the keys of the batch, so every absent batch key is now present |
| `PriceStore.InsertAllNew` | update_database.py:63-64 | a newly present row is the first batch row with that key; later duplicates in the batch are ignored |
| `PriceStore.InsertAllWellKeyed` | update_database.py:63-64 | insert-or-ignore keeps every row under its own key, so no duplicate keys arise |
| `PriceStore.InsertAllPresent` | update_database.py:63-64 | a batch whose keys are all present changes nothing |
| `PriceStore.InsertAllIdempotent` | update_database.py:63-64 | inserting the same batch a second time leaves the table unchanged |
| `PriceStore.LatestExists` | update_database.py:36 | a finite non-empty set of dates has a latest element |
| `PriceStore.WatermarkExists` | update_database.py:36 | a security with stored rows has a latest stored date |
| `PriceStore.WatermarkUnique` | update_database.py:36 | that latest stored date is unique |
| `PriceStore.Watermark` | update_database.py:36-37 | `MAX(price_date)` is NULL exactly when the security has no rows; otherwise it is a stored date of that security that no stored date of it follows |
| `PriceStore.StepWellKeyed` | update_database.py:34-65 | processing one security keeps the table well keyed |
| `PriceStore.StepAppends` | update_database.py:34-65 | processing one security only appends; each new row belongs to that security and is a bar that passed the filter |
| `PriceStore.SkipIgnoresProvider` | update_database.py:45-48 | a skipped security does not consult the provider and leaves the table as it is |
| `PriceStore.StepFetchesFrom` | update_database.py:36-48 | a step that changes the table fetched from 2002-01-01 when nothing was stored, else from the day after the watermark, and that start was before today |
| `PriceStore.StepNoNewData` | update_database.py:45-64 | when, at the step's own start date, the security is skipped or every fetched bar that passes the filter is already stored, the step changes nothing |
| `PriceStore.StepInserts` | update_database.py:48-64 | when the security is fetched and the download succeeds, the step succeeds and afterwards every bar that passed the filter is stored under `(security_id, bar date)` |
| `PriceStore.AbortPersists` | update_database.py:29-67 | once an exception has ended the loop, later securities change nothing |
| `PriceStore.RunAppends` | update_database.py:29-67 | the whole update only appends to the table and keeps it well keyed |
| `PriceStore.RunAbortedAt` | update_database.py:29-67 | an abort at position k means the first k securities ran normally, security k raised, and the table is what the first k left |
| `PriceStore.RunWhenCurrent` | update_database.py:33-46 | when every security is already current, a run completes without calling the provider and leaves the table unchanged |
| `PriceStore.RunNoNewData` | update_database.py:29-67 | when the provider has nothing new, in that sense, for any security, a run leaves the table unchanged whether it completes or aborts |
| `PriceStore.StepNewKeys` | update_database.py:48-64 | every row a step adds belongs to that security and is dated like a bar fetched from the step's start |
| `PriceStore.WatermarkSame` | update_database.py:36-37 | two tables with the same keys for a security have the same `MAX(price_date)` |
| `PriceStore.StartNotEarlier` | update_database.py:36-64 | when the provider returns only bars dated on or after the requested start, a step never moves the security's start date backwards |
| `PriceStore.StepLeavesNothingNew` | update_database.py:36-64 | when the provider answers from a fixed history, the provider has nothing new for the security after its step |
| `PriceStore.OtherStepKeepsNothingNew` | update_database.py:34-64 | the step of one security touches no row of another, so the other still has nothing new |
| `PriceStore.RunLeavesNothingNew` | update_database.py:29-67 | after a completed run over securities with distinct ids and fixed histories, the provider has nothing new for any of them |
| `PriceStore.SecondRunAddsNothing` | update_database.py:29-67 | running the update again on the same day, against the same fixed histories, after a run that completed, adds no rows |
| `PriceStore.RunSnoc` | update_database.py:33-65 | the run over one more security is the run so far followed by one step |
| `PriceStore.RunStopsAt` | update_database.py:29-67 | when a security raises after a normal run over the earlier ones, the whole run stops there with the table the earlier ones left |
| `PriceStore.PriceTable.MaxPriceDate` | update_database.py:36-37 | the scan over stored keys returns exactly the watermark of the security |
| `PriceStore.PriceTable.InsertOrIgnore` | update_database.py:63-64 | `executemany` of `INSERT OR IGNORE` leaves the table as `InsertAll` of the old table and the batch, and keeps it well keyed |
| `PriceStore.PriceTable.UpdateSecurity` | update_database.py:34-65 | one security: the new table is the step's result; when an exception escapes, the table is unchanged |
| `PriceStore.PriceTable.UpdateDailyPrices` | update_database.py:29-67 | the loop leaves the table and status that `Run` defines: every security in order, stopping at the first exception |
| `MacroFrame.InsertDate` | update_database.py:90-91 | inserting a date into an ascending axis keeps it ascending and adds exactly that date |
| `MacroFrame.AddDates` | update_database.py:90-91 | adding a series' dates keeps the axis ascending and adds exactly those dates |
| `MacroFrame.UnionIndex` | update_database.py:90-91 | the joined index is strictly ascending and holds a date exactly when some series has a reading at it |
| `MacroFrame.LookupSpec` | update_database.py:90 | a series' cell at a date is its reading there, or missing when it has none |
| `MacroFrame.Align` | update_database.py:90-91 | the joined frame has one column per series, each as long as the ascending index |
| `MacroFrame.AlignSpec` | update_database.py:90-91 | the joined frame is well formed; its index is the union of the series' dates; each column keeps its series' name; each cell is that series' reading at the date, or missing; the index keeps the series' index name when they all share it and is unnamed otherwise |
| `MacroFrame.ForwardFill` | update_database.py:92 | forward fill keeps the length of a column |
| `MacroFrame.ForwardFillAt` | update_database.py:92 | each filled cell is the nearest present cell at or before it |
| `MacroFrame.LastSeenFacts` | update_database.py:92 | the nearest present cell is missing only when every cell up to that position is missing; otherwise it is the value of the nearest earlier present cell |
| `MacroFrame.ForwardFillSpec` | update_database.py:92 | forward fill keeps the length and every present cell; a missing cell takes the nearest earlier present value; a cell stays missing exactly in the leading gap |
| `MacroFrame.ForwardFillIdempotent` | update_database.py:92 | filling an already filled column changes nothing |
| `MacroFrame.FillFrame` | update_database.py:92 | filling every column keeps the frame rectangular |
| `MacroFrame.FillFrameSpec` | update_database.py:92 | the filled frame keeps the index, the column names and the shape, and each column is the forward fill of the old one |
| `MacroFrame.PctChange` | update_database.py:94-97 | the percent change over n rows is missing in the first n rows; later it is present exactly when both operands are present and the base is nonzero, and then `rate * base == (current - base) * 100` |
| `MacroFrame.Spread` | update_database.py:98 | the difference column is as long as its first operand |
| `MacroFrame.SpreadSpec` | update_database.py:98 | the spread is present exactly where both yields are, and there it is their difference |
| `MacroFrame.FindColumn` | update_database.py:94-101 | a column found by name has that name |
| `MacroFrame.FindColumnSpec` | update_database.py:94-101 | the first column with that name is found, and a miss means no column has it |
| `MacroFrame.Get` | update_database.py:94-98 | a column read from a rectangular frame is as long as the index |
| `MacroFrame.GetSpec` | update_database.py:94-98 | with distinct names, `df[name]` succeeds exactly when a column has that name, and returns its cells |
| `MacroFrame.WithColumn` | update_database.py:94-98 | assigning a column keeps the index and the frame rectangular |
| `MacroFrame.WithColumnSpec` | update_database.py:94-98 | after `df[name] = cells` the column reads back as `cells`, every other column reads as before, and the frame stays well formed |
| `MacroFrame.WithColumnShape` | update_database.py:94-98 | the assigned column replaces the column of that name in place, or is appended when there was none |
| `MacroFrame.WithColumnColumns` | update_database.py:94-98 | after the assignment the columns are the old ones without that name, plus the new one |
| `MacroFrame.DropColumns` | update_database.py:100-101 | dropping columns keeps the index and the frame rectangular |
| `MacroFrame.DropColumnsDefined` | update_database.py:100-101 | `drop(columns=...)` succeeds exactly when every name is a column; otherwise it raises |
| `MacroFrame.DropColumnsShape` | update_database.py:100-101 | after the drop the frame is well formed on the same index and holds exactly the columns not named, in their order |
| `MacroFrame.DropColumnsGet` | update_database.py:100-101 | after the drop the named columns are absent and every other column reads as before |
| `MacroFrame.RowMask` | update_database.py:102 | the `dropna` mask has one entry per row |
| `MacroFrame.DropNa` | update_database.py:102 | `dropna` keeps the frame rectangular and keeps every column |
| `MacroFrame.DropNaShape` | update_database.py:102 | `dropna` keeps the frame well formed, with the same columns and names |
| `MacroFrame.DropNaNoMissing` | update_database.py:102 | after `dropna` no cell is missing |
| `MacroFrame.DropNaRows` | update_database.py:102 | `dropna` keeps exactly the complete rows, whole and in their relative order |
| `MacroFrame.DropNaGet` | update_database.py:102 | a column read after `dropna` is that column at the kept rows |
| `MacroFrame.CompleteRowCell` | update_database.py:102 | a row `dropna` keeps has a present cell in every column |
| `MacroFrame.DropNaIdempotent` | update_database.py:102 | `dropna` is idempotent |
| `MacroDerive.AddGrowth` | update_database.py:94 | a growth assignment keeps the index and the frame rectangular |
| `MacroDerive.AddGrowths` | update_database.py:94-97 | the growth assignments in order keep the index and the frame rectangular |
| `MacroDerive.DeriveWith` | update_database.py:94-98 | the derivation keeps the index and the frame rectangular |
| `MacroDerive.AddGrowthSpec` | update_database.py:94 | a growth step adds its column as the 365-row percent change of the level column and leaves the others as they were |
| `MacroDerive.AddGrowthsSpec` | update_database.py:94-97 | independent growth steps succeed; each growth column is the percent change of its level column in the original frame; every column no step writes is kept |
| `MacroDerive.IndependentFront` | update_database.py:94-97 | the steps before the last are independent, and the last reads and writes columns none of them writes |
| `MacroDerive.GrowthStep` | update_database.py:94-97 | one more growth step keeps the earlier growth columns and the unwritten columns |
| `MacroDerive.DeriveWithSpec` | update_database.py:94-98 | the derivation succeeds; growth columns are the percent changes of their levels; the spread is the difference of the two yields; every other column is untouched |
| `MacroDerive.SpreadStep` | update_database.py:98 | setting the spread keeps the growth columns and the unwritten columns |
| `MacroDerive.DropSpec` | update_database.py:100-101 | dropping present columns removes exactly those and keeps the others |
| `MacroDerive.WrittenBy` | update_database.py:94-97 | a written column is written by some step |
| `MacroDerive.DropNaSkipsLag` | update_database.py:94-102 | when one column is missing in its first 365 rows, `dropna` keeps none of those rows |
| `MacroDerive.DropNaGrowth` | update_database.py:94-102 | after `dropna`, each kept growth cell is present and equals the percent change at that row, with both levels present and a nonzero base |
| `MacroDerive.DropNaSpread` | update_database.py:98-102 | after `dropna`, each kept spread cell is the difference of the two present yields at that row |
| `MacroUpdate.ConfiguredNamesDistinct` | update_database.py:11-18 | no two configured series share a column name |
| `MacroUpdate.Derive` | update_database.py:94-98 | the derivation with the configured names keeps the index and the frame rectangular |
| `MacroUpdate.Filled` | update_database.py:90-92 | the joined and filled frame has an ascending index and one column per series |
| `MacroUpdate.Prepared` | update_database.py:90-101 | the frame before `dropna` is rectangular on the joined index |
| `MacroUpdate.BuildMacroFrame` | update_database.py:90-102 | the stored frame is rectangular |
| `MacroUpdate.FilledSpec` | update_database.py:90-92 | the filled frame of the configured series is well formed, has a column exactly for each configured name, and each column is the forward fill of the joined one |
| `MacroUpdate.WrittenGrowth` | update_database.py:94-97 | the growth steps write the four rate columns |
| `MacroUpdate.DerivedNamesSplit` | update_database.py:94-98 | the derived columns are the four rates and the spread, and the configured steps are independent |
| `MacroUpdate.DroppedNames` | update_database.py:100 | the dropped columns are the four level columns and the Bund yield, none of them derived, and the BTP yield is kept |
| `MacroUpdate.InputsConfigured` | update_database.py:11-18 | every column the derivation reads is configured |
| `MacroUpdate.DeriveSpec` | update_database.py:94-98 | with the inputs present, the derivation succeeds; the rates are the percent changes of the levels; `btp_bund_spread` is `btp_10y_yield - bund_10y_yield`; every other column is untouched |
| `MacroUpdate.FilledHasInputs` | update_database.py:90-92 | the filled frame has the six columns the derivation reads |
| `MacroUpdate.DroppedPresent` | update_database.py:100-101 | every column to drop is present, so the drop cannot raise |
| `MacroUpdate.PreparedSpec` | update_database.py:90-101 | before `dropna` the five dropped columns are absent; the rates and spread are computed from the filled levels; every other column is the filled column |
| `MacroUpdate.PreparedShape` | update_database.py:94-101 | before `dropna` a growth column is missing in its first 365 rows |
| `MacroUpdate.BuildShape` | update_database.py:90-102 | the stored frame has no missing cell; its rows are the complete filled rows in order; none is among the first 365 |
| `MacroUpdate.PreparedColumn` | update_database.py:94-101 | before `dropna`, a column exists exactly when it is an output column |
| `MacroUpdate.PreparedNames` | update_database.py:94-101 | before `dropna` the frame has exactly the output columns |
| `MacroUpdate.BuildColumns` | update_database.py:94-102 | the stored frame has exactly the output columns: the five dropped ones are absent |
| `MacroUpdate.OutputNamesSplit` | update_database.py:11-18 | the output columns are the configured ones not dropped, plus the derived ones |
| `MacroUpdate.ConfiguredNotDerived` | update_database.py:11-18 | no configured name is a derived name |
| `MacroUpdate.PreparedCarried` | update_database.py:90-101 | before `dropna` a kept configured column is the filled column |
| `MacroUpdate.PreparedGrowth` | update_database.py:94-97 | before `dropna` a growth column is the percent change of its filled level |
| `MacroUpdate.BuildCarried` | update_database.py:90-102 | a kept configured column is stored as filled, read at the surviving rows |
| `MacroUpdate.BuildGrowth` | update_database.py:94-102 | each stored rate is the 365-row percent change of its filled level at that row, with both levels present and a nonzero base |
| `MacroUpdate.PreparedSpreadColumns` | update_database.py:98-101 | before `dropna` the spread is the difference of the filled yields |
| `MacroUpdate.BuildSpread` | update_database.py:98-102 | each stored `btp_bund_spread` is the filled `btp_10y_yield` minus the filled `bund_10y_yield` at that row, both present |
| `MacroUpdate.CollectSeries` | update_database.py:84-88 | the collected series exist exactly when every fetch succeeds; each is the fetched series under its configured name, in order |
| `MacroUpdate.MacroRun` | update_database.py:80-102 | a run's frame is rectangular |
| `MacroUpdate.CollectedConfigured` | update_database.py:84-88 | the collected series carry the configured names |
| `MacroUpdate.MacroRunDefined` | update_database.py:80-102 | a run produces a frame exactly when every configured fetch succeeds; no later step can raise |
| `MacroUpdate.FetchAll` | update_database.py:84-88 | the fetch loop returns exactly the collected series, or nothing at the first failing fetch |
| `MacroUpdate.FailurePersists` | update_database.py:84-88 | once a prefix of the configuration fails, the whole collection fails |
| `MacroUpdate.ToTableDefined` | update_database.py:105-107 | for a frame with no column named `index`, `level_0` or `data_date`, the write reaches `to_sql` exactly when the index is unnamed or named `index` or `data_date`; any other index name makes line 107 raise KeyError |
| `MacroUpdate.BuildPlainColumns` | update_database.py:90-102 | no stored column is named `index`, `level_0` or `data_date` |
| `MacroUpdate.MacroRunTableDefined` | update_database.py:80-108 | a run writes a table exactly when every configured fetch succeeds and the joined index name is one under which line 107 finds `data_date` |
| `MacroUpdate.NamedIndexNotWritten` | update_database.py:84-108 | when every series arrives with its index named, say, `DATE`, the run raises at line 107 and writes nothing |
| `MacroUpdate.UnnamedIndexWritten` | update_database.py:84-108 | when every series arrives with an unnamed index, the run writes the table of the frame it built |
| `MacroUpdate.ToTableSpec` | update_database.py:105-108 | the stored table has one record per row in order, `data_date` texts strictly increasing, and each record holds the row's cells |
| `MacroUpdate.MacroStore.UpdateMacroData` | update_database.py:80-113 | the table is replaced by the run's table exactly when no exception escapes, including the KeyError of line 107; otherwise it is left as it was |

## Left out

- The SQLite connection, cursor, commit and close, and `to_sql` itself. The tables are Dafny values, and `macro_data` is replaced in one assignment.
- The downloads (`yf.download`, `pdr.get_data_fred`) and the clock. They are parameters: a provider function and the current date. The source calls `date.today()` once per security (update_database.py:45), so a run that crosses midnight compares later securities with the next day; the model uses one `today` for the whole run.
- The printed log lines and the `tqdm` progress bar.
- `main`. It only calls the two updaters in sequence.
- Date parsing with `strptime` and `pd.to_datetime`. Stored dates are `Date` values, and the text form appears only where the code compares or writes text.
- Floating point. Prices and indicator values are exact `real`s, so the rounding of `pct_change` and of the spread is not modelled.
- `MacroFrame.PctChange`: a zero base gives a missing cell. pandas gives `NaN` for 0/0, which `dropna` removes, but an infinity for x/0 with x ≠ 0, which `dropna` keeps. The model drops that row too, because an infinity has no `real` value.
- `MacroFrame.LookupSpec`: a series with two readings on one date is read at its first reading. pandas' `concat` rejects duplicate index labels instead. Provider series have one reading per date.
- `Dates.Format`: years below 1000 are zero-padded to four digits. Python's `strftime('%Y')` pads them or not depending on the platform.
- Exceptions are modelled only where the code can raise on its own inputs: the day after 9999-12-31, a provider call that raises, and the `reset_index`, `rename` and `data_date` lookup of update_database.py:105-107. Other failures of the database or of pandas are not modelled.
- `MacroUpdate.ToTable`: a frame with a data column named `index`, `level_0` or `data_date` is treated as failing. pandas would rename such a column or write it under a second `data_date` header; the update's own columns never have these names (`MacroUpdate.BuildPlainColumns`).
- The macro store's failure window (a crash between dropping and rewriting `macro_data`) is not modelled, since the write is one assignment here.
