# Intraday store update of `download_clean_update`, in Dafny

This project models the clean-and-merge part of `download_clean_update` in
`yfinance_import/update_database.py`, which keeps a store of five-minute (or
other interval) bars for a set of tickers. Once the provider's data has
been downloaded, the function works in four steps:

1. **Time index** (`Interval`, `TimeGrid`). It parses the interval string
   ("5m", "15m", "1h"). Then, for every calendar day from `start` (included)
   to `end` (excluded), it emits the timestamps from 09:30, stepping by the
   increment, while the timestamp is before 16:00.
2. **Alignment** (`Align`). Each ticker's frame is reindexed onto the time
   index, and the rows whose cells are all NaN are dropped.
3. **Combine and fill** (`Concat`, `Fill`).
   - The aligned frames are outer-joined on time under (ticker, field) column labels.
   - Every column is then linearly interpolated, forward filled and backward filled.
4. **Store merge** (`Store`). Without a store, the cleaned data becomes the
   store. Otherwise the store is the old store followed by the cleaned rows
   whose timestamp the old store lacks.

`Update` puts the steps together. `Update.DownloadCleanUpdate` is the step
by step method. `Update.UpdatedStore` is the function that specifies it.
The end-to-end lemmas say what a call adds to the store and that a repeated
call changes nothing.

Modelling choices:

- **Time.** A timestamp is an integer number of minutes in one fixed offset, and a calendar day is its number as `date.toordinal()` gives it.
  - Day `d` starts at minute `d * 1440`.
  - The session runs from minute 570 (09:30) to minute 960 (16:00) of the day.
  - `start` and `end` are dates, so their day numbers lie between those of 0001-01-01 (1) and 9999-12-31 (3652059).
  - A `datetime` holds only the minutes of those days, and a `timedelta` at most 999999999 days either way.
- **Cells.** A cell is an `Option<real>`: `None` where pandas holds NaN, and an exact real otherwise.
- **Frames.** A frame is a list of column labels and a list of rows, each row a timestamp and one cell per column.
  - A provider frame maps each timestamp to a row.
  - The ticker mapping is a sequence of (ticker, frame) pairs, in the mapping's order.
- **Store.** The store file is an `Option` of a frame, `None` when there is no file; the frame written back is the result.
- **Errors.** The exceptions the core raises become `Err` results, and `Update.UpdateError` lists them:
  - a bad interval string: `IndexError` or `ValueError` from the parse, or `OverflowError` from a `timedelta` of 10^9 days or more;
  - a step `time += increment` that leaves the `datetime` range (`OverflowError` at line 67): every negative increment when there is a day to fill, and a positive one whose last step passes 9999-12-31;
  - an empty ticker mapping (`pd.concat` has no objects to concatenate).
- **In-place updates.** The in-place pandas calls (`inplace=True`, and the reassignment of each ticker's frame) become reassignments of local variables in `Update.DownloadCleanUpdate` and `Align.AlignAll`.
- **Code versus description.** Where the code and its description differ, the model follows the code:
  - every calendar day gets slots, weekends and holidays included, with no trading-calendar check;
  - the merge appends without sorting, so the store stays in time order exactly when every timestamp the merge adds is later than all stored ones (`Store.MergeIncreasing` and `Store.MergeIncreasingOnlyIf`);
  - an interval that does not end in `m` counts in hours, so "1d" means one hour.

## Model

| member | source | states |
|---|---|---|
| Interval.ParseInt | yfinance_import/update_database.py:59-61 | `int()` on the prefix succeeds exactly on an integer literal (an optional sign, then one or more ASCII digits), and fails only with ValueError |
| Interval.ParseInterval | yfinance_import/update_database.py:58-61 | the increment in minutes; a success is always within the `timedelta` range, and the error is IndexError exactly for the empty string |
| Interval.ParseIntervalFormat | yfinance_import/update_database.py:58-61 | an integer followed by 'm' gives that many minutes, followed by any other character 60 times as many, and OverflowError when that is 10^9 days or more either way |
| Interval.ParseIntervalFailure | yfinance_import/update_database.py:58-61 | the empty string fails with IndexError, a prefix that is not an integer literal (IsIntLiteral) with ValueError, an out-of-range number of minutes with OverflowError; nothing else fails |
| Interval.ParseIntervalExamples | yfinance_import/update_database.py:58-61 | "5m" is 5 minutes, "15m" is 15, "1h" is 60, "1d" is also 60, and "m" and "1wk" fail with ValueError |
| Interval.ParseIntervalRangeEdges | yfinance_import/update_database.py:58-61 | 10^9 days of minutes or of hours overflow while one minute less does not, and likewise on the negative side at -999999999 days |
| Interval.ParseIntFormatInt | yfinance_import/update_database.py:59-61 | `int()` reads back the decimal form of every integer, signs included |
| TimeGrid.SlotsFrom | yfinance_import/update_database.py:65-67 | the inner loop's slots from `time` while below `stop`; every slot lies in [time, stop) |
| TimeGrid.DaySlots | yfinance_import/update_database.py:63-67 | one day's slots, all in [09:30, 16:00) of that day |
| TimeGrid.TimeIndex | yfinance_import/update_database.py:56-69 | the days' slots in day order, all between the midnight that starts `start` and the midnight that starts `end` |
| TimeGrid.TimeIndexResult | yfinance_import/update_database.py:56-69 | definition of the outcome: no days gives the empty index; a negative increment, or a last step past 9999-12-31, gives OverflowError; otherwise TimeIndex; its cases are stated by TimeIndexOutcome |
| TimeGrid.BuildTimeIndex | yfinance_import/update_database.py:56-71 | the outer loop gives exactly TimeIndexResult: the index of each day's session slots in day order, or the OverflowError of a step |
| TimeGrid.AppendDaySlots | yfinance_import/update_database.py:63-67 | the inner loop appends exactly the day's slots, or raises OverflowError when its final step leaves the `datetime` range, and always does so for a negative increment |
| TimeGrid.TimeIndexOutcome | yfinance_import/update_database.py:56-69 | over a non-empty range a negative increment always overflows, an increment of at most a day ("5m", "15m") never does, and one beyond the whole `datetime` range always does |
| TimeGrid.SlotsFromShape | yfinance_import/update_database.py:63-67 | the k-th slot of the inner loop is the opening time plus k increments; the last slot is before the close, and one more increment would reach or pass it |
| TimeGrid.SlotsFromMembers | yfinance_import/update_database.py:63-67 | a time is emitted iff it lies in [open, close) at a whole number of increments from the open |
| TimeGrid.DaySlotsShape | yfinance_import/update_database.py:63-67 | a day has ceil(390 / increment) slots; the first is 09:30, each one is the previous plus the increment, and all lie in [09:30, 16:00) |
| TimeGrid.FiveMinuteDay | yfinance_import/update_database.py:65-67 | the default "5m" interval gives 78 slots per calendar day |
| TimeGrid.TimeIndexLength | yfinance_import/update_database.py:62-69 | the index has (end - start) times the per-day count of slots, and none when start >= end |
| TimeGrid.TimeIndexSplit | yfinance_import/update_database.py:62-69 | the index of [start, end) is the index of [start, mid) followed by that of [mid, end) |
| TimeGrid.DayInIndex | yfinance_import/update_database.py:62-69 | every day in [start, end) contributes its slots, after the earlier days and before the later ones |
| TimeGrid.TimeIndexIncreasing | yfinance_import/update_database.py:56-69 | the index is strictly increasing |
| TimeGrid.TimeIndexMembers | yfinance_import/update_database.py:56-69 | a timestamp is in the index iff its day is in [start, end) and it is a session slot of the increment's grid |
| Align.Reindex | yfinance_import/update_database.py:73 | reindexing keeps the provider's columns and gives exactly the time index as index |
| Align.DropAllNull | yfinance_import/update_database.py:73 | definition of `dropna(how='all')`; its meaning is stated by DropAllNullAppend, DropAllNullSingle and DropAllNullMembers |
| Align.DropAllNullAppend | yfinance_import/update_database.py:73 | the row filter splits over a concatenation, so it works row by row and keeps the order |
| Align.DropAllNullSingle | yfinance_import/update_database.py:73 | a single row is kept exactly when it has a non-NaN cell |
| Align.Align | yfinance_import/update_database.py:73 | definition of one ticker's aligned frame (reindex, then drop all-NaN rows); stated by AlignMembers, AlignKeepsSlot and AlignIndex |
| Align.AlignedFrames | yfinance_import/update_database.py:72-73 | one aligned frame per ticker, as many as the mapping has |
| Align.AlignAll | yfinance_import/update_database.py:72-73 | the loop over the tickers replaces every frame by its aligned frame, keeping the tickers in order |
| Align.DropAllNullMembers | yfinance_import/update_database.py:73 | `dropna(how='all')` keeps exactly the rows with a non-NaN cell |
| Align.DropAllNullSubsequence | yfinance_import/update_database.py:73 | the rows it keeps stay in their order |
| Align.AlignMembers | yfinance_import/update_database.py:73 | an aligned row is exactly a provider row at an index timestamp that is not all NaN, with its cells unchanged |
| Align.AlignKeepsSlot | yfinance_import/update_database.py:73 | an index slot survives iff the provider has a row there with a non-NaN cell |
| Align.AlignIndex | yfinance_import/update_database.py:73 | the aligned timestamps are a subsequence of the time index, so strictly increasing with it; the columns are the provider's fields |
| Align.AlignWellFormed | yfinance_import/update_database.py:73 | every aligned row has one cell per field |
| Concat.SortedUnion | yfinance_import/update_database.py:74 | definition of the merge of two sorted indices; stated by SortedUnionSpec |
| Concat.CombineIndex | yfinance_import/update_database.py:74 | definition of the combined index; stated by CombineIndexSpec |
| Concat.CombineColumns | yfinance_import/update_database.py:74 | definition of the (ticker, field) labels; stated by CombineColumnAt and CombineColumnsDistinct |
| Concat.CombinedCells | yfinance_import/update_database.py:74 | definition of a combined row; stated by CombinedCellAt |
| Concat.Combine | yfinance_import/update_database.py:74 | definition of `pd.concat(axis=1, keys=...)`; stated by CombineShape, CombineColumnAt and CombinedCellAt |
| Concat.SortedUnionSpec | yfinance_import/update_database.py:74 | the outer join of two increasing indices is increasing and holds exactly the timestamps of either |
| Concat.CombineIndexSpec | yfinance_import/update_database.py:74 | the combined index is strictly increasing and is the union of the tickers' aligned indices |
| Concat.LookupRow | yfinance_import/update_database.py:74 | a row is found at t exactly when the frame has a row at t, and it is that row |
| Concat.TickerCellsSpec | yfinance_import/update_database.py:74 | a ticker contributes its own row's cells at a timestamp where it has a row, and NaN throughout where it has none |
| Concat.CombineColumnAt | yfinance_import/update_database.py:74 | column Offset(k) + j of the combined frame is labelled (ticker k, field j) |
| Concat.CombinedCellAt | yfinance_import/update_database.py:74 | the combined cell under (ticker k, field j) is ticker k's cell j at that time, NaN when ticker k has no row there |
| Concat.CombineShape | yfinance_import/update_database.py:74 | the combined frame is well formed, indexed by the union of the indices, with one column per (ticker, field) |
| Concat.CombineColumnsDistinct | yfinance_import/update_database.py:74 | distinct tickers with distinct fields give distinct column labels |
| Fill.PrevKnown | yfinance_import/update_database.py:78 | the nearest known cell at or before a row, and that none exists when the result is None |
| Fill.NextKnown | yfinance_import/update_database.py:79 | the nearest known cell at or after a row, and that none exists when the result is None |
| Fill.Interpolate | yfinance_import/update_database.py:77 | the interpolated column has the column's length; its values are stated by InterpolateNulls, InterpolateBetween, InterpolateLine and InterpolateTrailing |
| Fill.Pad | yfinance_import/update_database.py:78 | the forward-filled column has the column's length; its values are stated by PadFromAt |
| Fill.Backfill | yfinance_import/update_database.py:79 | the backward-filled column has the column's length; its values are stated by BackfillFromAt |
| Fill.FillColumn | yfinance_import/update_database.py:77-79 | the three passes keep the column's length; stated by FillColumnSpec |
| Fill.FillFrame | yfinance_import/update_database.py:77-79 | the three passes keep the frame's columns and index; stated by FillFrameColumn and FillFrameComplete |
| Fill.PadFromAt | yfinance_import/update_database.py:78 | forward fill gives each row the value at its nearest earlier-or-same known row, and NaN when there is none |
| Fill.BackfillFromAt | yfinance_import/update_database.py:79 | backward fill gives each row the value at its nearest later-or-same known row, and NaN when there is none |
| Fill.PadThenBackfill | yfinance_import/update_database.py:78-79 | pad then backfill keeps a known cell; a NaN takes the nearest earlier known value, else the nearest later one; a cell ends known iff the column has any value |
| Fill.InterpolateNulls | yfinance_import/update_database.py:77 | interpolation keeps known cells, and leaves NaN exactly before the first known cell |
| Fill.InterpolateBetween | yfinance_import/update_database.py:77 | a value interpolated between two known cells lies between their values |
| Fill.InterpolateLine | yfinance_import/update_database.py:77 | when the two neighbouring known cells lie on a line, the interpolated value lies on the same line |
| Fill.InterpolateTrailing | yfinance_import/update_database.py:77 | a NaN after the last known cell takes that cell's value |
| Fill.InterpolateIdempotent | yfinance_import/update_database.py:77 | interpolating a second time changes nothing |
| Fill.FillIsBackfillOfInterpolate | yfinance_import/update_database.py:77-79 | after interpolation the forward fill has nothing left to fill |
| Fill.BackfillInterpolated | yfinance_import/update_database.py:77-79 | after the three passes an interpolated cell stays as it is, and a leading NaN takes the first known value |
| Fill.FillColumnSpec | yfinance_import/update_database.py:77-79 | the three passes on a column: known cells kept; interior NaNs on the line between the neighbouring known cells; trailing NaNs take the last value; leading NaNs take the first value; no NaN left iff the column has a value |
| Fill.ApplyPass | yfinance_import/update_database.py:77-79 | a pass keeps the frame's columns and index and its well-formedness |
| Fill.ApplyPassColumn | yfinance_import/update_database.py:77-79 | a pass on the frame is that pass on each column separately |
| Fill.FillFrameColumn | yfinance_import/update_database.py:77-79 | each column of the filled frame is that column filled on its own |
| Fill.FillFrameComplete | yfinance_import/update_database.py:77-79 | in the filled frame a column with any value has no NaN, and an all-NaN column stays all NaN |
| Store.FilterNew | yfinance_import/update_database.py:86-87 | the selected rows are exactly the rows at timestamps outside the old index, in their original order |
| Store.FilterNewAppend | yfinance_import/update_database.py:86-87 | the row selection splits over a concatenation, so it works row by row, repeated rows included, and keeps the order |
| Store.FilterNewSingle | yfinance_import/update_database.py:86-87 | a single row is selected exactly when its timestamp is not in the old index |
| Store.FilterNewTimes | yfinance_import/update_database.py:86-87 | the selected timestamps are the new data's timestamps minus the old index |
| Store.NewColumns | yfinance_import/update_database.py:89 | the columns `append` adds are exactly the new data's labels that the store lacks |
| Store.NewColumnsDistinct | yfinance_import/update_database.py:89 | the widened column list has no label twice |
| Store.RelayoutCell | yfinance_import/update_database.py:89 | a row laid out under the widened columns holds its old cell under every label it had, and NaN under the others |
| Store.Relayout | yfinance_import/update_database.py:89 | a row laid out under another column list has one cell per label; stated by RelayoutCell and RelayoutSame |
| Store.Append | yfinance_import/update_database.py:89 | `append` gives a well-formed frame under the widened columns; stated by MergeKeepsRow and MergeAddsRow |
| Store.Fresh | yfinance_import/update_database.py:87-89 | the selected new rows under the new data's columns, a well-formed frame |
| Store.Merge | yfinance_import/update_database.py:82-93 | the store written back is well formed |
| Store.MergeSameColumns | yfinance_import/update_database.py:86-90 | under the store's own columns, the result is the old store unchanged followed by exactly the new rows at unseen timestamps, in order |
| Store.MergeKeepsRow | yfinance_import/update_database.py:89 | each old row keeps its place, its timestamp and every cell, with NaN under the added columns |
| Store.MergeAddsRow | yfinance_import/update_database.py:87-89 | each appended row is a new row at an unseen timestamp, with its own cells, and NaN under columns only the store has |
| Store.MergeTimes | yfinance_import/update_database.py:82-93 | without a store the result is the new data; with one, the index is the old index followed by the fresh timestamps, so the timestamps are the old ones plus the new data's |
| Store.MergeOverlapping | yfinance_import/update_database.py:86-90 | data at timestamps the store already has, under the same columns, leaves the store unchanged |
| Store.MergeIdempotent | yfinance_import/update_database.py:82-93 | merging the same data a second time changes nothing |
| Store.MergeDistinct | yfinance_import/update_database.py:86-89 | no timestamp is stored twice when neither side holds one twice |
| Store.MergeIncreasing | yfinance_import/update_database.py:86-89 | the store stays strictly increasing when both sides are and every timestamp the merge adds is later than the whole old store |
| Store.MergeIncreasingOnlyIf | yfinance_import/update_database.py:86-89 | conversely, a merged store in time order has every added timestamp later than the whole old store |
| Update.CleanData | yfinance_import/update_database.py:72-79 | the cleaned frame is well formed, labelled (ticker, field), and indexed by the union of the aligned indices |
| Update.UpdatedStore | yfinance_import/update_database.py:51-93 | definition of the outcome of a call, composed of the steps above; stated by UpdateOutcome, UpdateTimes and UpdateIdempotent |
| Update.DownloadCleanUpdate | yfinance_import/update_database.py:51-93 | the method computes UpdatedStore: the interval error, the overflow of a step, the empty-mapping error, or the merged store |
| Update.UpdateOutcome | yfinance_import/update_database.py:58-74 | a bad interval fails with its parse error; otherwise a step out of the `datetime` range fails with TimeOverflow; otherwise the call succeeds exactly when the ticker mapping is not empty; with an interval of at most a day it succeeds for every non-empty mapping |
| Update.CleanDataTimes | yfinance_import/update_database.py:72-74 | the cleaned data has a row exactly at the index slots where some ticker reported a row with a value |
| Update.UpdateTimes | yfinance_import/update_database.py:56-93 | after a call the store holds exactly its old timestamps plus the session slots of days in [start, end) where some ticker reported a value |
| Update.UpdateIdempotent | yfinance_import/update_database.py:51-93 | repeating the same update on the store it wrote changes nothing (distinct tickers, fields and store labels) |
| Update.EmptyRangeAddsNothing | yfinance_import/update_database.py:141-146 | with start = end, as `download_day` calls it, the store's timestamps stay as they were |

## Left out

- The download `yf.multi.download` (lines 15-49) is not modelled, nor its threads; the per-ticker provider frames are an input.
- Reading and writing the pickle file, and the `print` calls (lines 82-93), are not modelled. The store is an optional input frame: a missing file, where the source catches `FileNotFoundError`, is `None`. The result is the frame written back.
- The time-zone objects of `tz.gettz('EST')` (lines 63-64) are not modelled. Time is one fixed offset in whole minutes, with no daylight-saving change.
- Floating point is not modelled. Prices and interpolated values are exact reals, so rounding in `np.interp` is absent.
- Interval.ParseInt: covers an optional sign followed by ASCII digits. Python's `int()` also accepts surrounding whitespace, underscores between digits and non-ASCII digits; those strings count as ValueError here.
- TimeGrid.BuildTimeIndex: requires a nonzero increment when start < end. With a zero increment `time` never moves and the source loops forever; the model does not describe a run that does not end.
- Duplicate timestamps in a provider frame are not modelled (pandas raises on reindexing them). A provider frame is a map from timestamp to row.
- Update.UpdateIdempotent: requires distinct tickers, distinct fields per ticker and distinct store labels. pandas behaves differently with duplicate labels.
- Store.Append: places the store's columns first and then the new labels. pandas may order the labels of an outer concatenation differently depending on its version; the cells under each label are the same.
- Concat.CombineIndexSpec: pandas sorts the union of differing datetime indices. The model takes that sorted union as the meaning of the outer join.
- The test and driver functions and matplotlib (lines 96-150) are not modelled; only the start = end call of `download_day` is used, by Update.EmptyRangeAddsNothing.
- `iex_import/update_from_iex.py` and `iex_import/examine_iex_data.py` are not part of this model. They only fetch, write and plot data.
