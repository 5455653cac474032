# Mortgage feature pipeline, modelled in Dafny

This project models the per-partition feature pipeline of the mortgage example
(`mortgage/E2E-dmo.py`, `run_gpu_workflow`). The pipeline takes the performance rows
of one quarter (one row per loan and reporting month) and the acquisition table. It
builds the training table in these steps:

- per-loan *ever* flags (`create_ever_features`);
- per-threshold *onset* dates (`create_delinq_features`, `join_ever_delinq_features`);
- a per-loan-month table with sentinel fills (`create_joined_df`);
- the twelve shifted 12-month windows with their label (`create_12_mon_features`);
- the re-join of the windows onto the loan-months (`combine_joined_12_mon`);
- the re-join of those features onto the performance rows (`final_performance_delinquency`);
- the join with the acquisition table (`join_perf_acq_gdfs`);
- the final clean-up (`last_mile_cleaning`), with `null_workaround` applied before each join.

The modules follow that structure:

- `wrappers.dfy`: `Option`.
- `dates.dfy`: calendar dates, their order, the epoch sentinel and the
  `datetime64[ms]` value of a date.
- `relational.dfy`: the key-level left join that every `merge(how='left')`
  is built on. The output is a sequence of (left row, matched right row) pairs, in
  left order. Also the group keys of a `groupby` and uniqueness of keys.
- `features.dfy`: the typed per-loan stages over performance records. The ever flags,
  the onset tables and their two left joins, the per-loan table and `create_joined_df`.
- `windows.dfy`: the window arithmetic. The `josh_months` ordinal, the
  `josh_mody_n` bucket, the target year, the group max/min aggregates and the label.
  Also the loop of `create_12_mon_features` (a method appending one table per offset)
  and `combine_joined_12_mon`.
- `frames.dfy`: column-major tables (`seq<Column>`, each column a name, a type and
  cells). It holds `null_workaround` (a function and an in-place method on the class
  `DataFrame`), `df[name] = col`, `drop_column`, and `merge(how='left')` over
  named key columns.
- `cleaning.dfy`: `last_mile_cleaning` as in-place loops on a `DataFrame`: the drop
  loop, the recasting loop, the label and the fill loop. Each is proved against a
  function of the old columns.
- `assembly.dfy`: `final_performance_delinquency` and `join_perf_acq_gdfs` over
  tables.
- `workflow.dfy`: the typed `joined_df` laid out as a table, and the stages from
  `final_performance_delinquency` to `last_mile_cleaning` in sequence. Its end-to-end
  theorem `WorkflowLabel` says what the label of the final table means in terms of the
  performance rows.

Five behaviours of the code are easy to misread. The model follows the code:

- A loan that never reached status 1 carries the epoch date 1970-01-01 in
  `delinquency_30/90/180`, not -1. The fill at lines 341-343 fires first. The -1 fills
  at lines 371-373 would only apply to a loan missing from `everdf`, and
  `everdf` is grouped from the same rows.
- The window of a label looks forward. Bucket `n` of offset `y` covers the ordinals
  `24000 + 12n + y` to `24000 + 12n + y + 11`. It is labelled year `2000 + n`, month `y`.
  So a row's label summarises the twelve months starting at its own month.
- The window label is the integer sum `[max status > 3] + [min upb == 0]`, in 0..2,
  not a 0/1 flag.
- The final label column is `int32`, not float. Every other column is `float32`.
- A loan whose every status is null has a null maximum and so null ever flags. For
  such a loan the -1 fill of `ever_30/90/180` at lines 368-370 does apply.

## Model

| member | source | states |
|---|---|---|
| Relational.Distinct | mortgage/E2E-dmo.py:299 | the group keys of a `groupby`: each key once, every row's key present, no other key |
| Relational.JoinPairs | mortgage/E2E-dmo.py:338 | the key-level left join: every output pair refers to a left row, a matched right row has the left row's key, and a left row is unmatched only when its key is absent on the right |
| Relational.JoinPairsComplete | mortgage/E2E-dmo.py:338 | a left join drops no left row: every matching (left, right) pair and every unmatched left row is in the output |
| Relational.JoinPairsOneToOne | mortgage/E2E-dmo.py:364 | against unique right keys, a left join has exactly one row per left row, in left order, paired with the sole match or none |
| Relational.RowPairsUnique | mortgage/E2E-dmo.py:364 | under unique right keys a left row has exactly one output row, paired with the first position of its key |
| Features.MaxStatus | mortgage/E2E-dmo.py:299 | the group maximum skips nulls: null exactly when the loan has no status, otherwise a status of the loan that bounds all of them |
| Features.CreateEverFeatures | mortgage/E2E-dmo.py:297-305 | one row per distinct loan of the input: keys unique, every input loan present, no other loan |
| Features.FlagOfMax | mortgage/E2E-dmo.py:301-303 | `(max >= t)` is 1 exactly when some status of the loan reaches `t`, 0 otherwise, and null for an all-null loan |
| Features.EverFeaturesMeaning | mortgage/E2E-dmo.py:297-305 | each ever row carries its loan's flags for thresholds 1, 3 and 6 |
| Features.EverFlagsMonotone | mortgage/E2E-dmo.py:301-303 | flags are 0 or 1, null together, and ever_180 = 1 implies ever_90 = 1 implies ever_30 = 1 |
| Features.Reached | mortgage/E2E-dmo.py:314 | the `query` keeps exactly the rows whose non-null status is at least the threshold |
| Features.MinPeriod | mortgage/E2E-dmo.py:314 | the group minimum of the reporting period: null exactly when the loan has no row, otherwise a period of the loan at or before all of them |
| Features.MinPeriodOfReached | mortgage/E2E-dmo.py:314-322 | the minimum over the filtered rows is null exactly when the loan never reached the threshold, otherwise its earliest crossing |
| Features.OnsetTable | mortgage/E2E-dmo.py:314-322 | one row per loan that reached the threshold, keys unique, each carrying its earliest crossing; every such loan present |
| Features.ReachesDownward | mortgage/E2E-dmo.py:314-320 | a loan that reached a higher threshold reached every lower one, so the 90- and 180-day loans are among the 30-day loans |
| Features.OnsetLookup | mortgage/E2E-dmo.py:324-327 | the left-join lookup in a threshold's table gives the loan's earliest crossing, or the epoch when it never crossed |
| Features.Merge90Rows | mortgage/E2E-dmo.py:324-325 | the first left join keeps the 30-day rows one-to-one and in order and attaches the 90-day lookup |
| Features.Merge90 | mortgage/E2E-dmo.py:324-325 | defines the left join of the 30-day table with the 90-day table and the epoch fill of `delinquency_90`; Merge90Rows states its meaning |
| Features.Merge180Rows | mortgage/E2E-dmo.py:326-327 | the second left join keeps the rows one-to-one and in order and attaches the 180-day lookup |
| Features.Merge180 | mortgage/E2E-dmo.py:326-327 | defines the left join with the 180-day table and the epoch fill of `delinquency_180`; Merge180Rows states its meaning |
| Features.DelinqFeaturesRows | mortgage/E2E-dmo.py:311-331 | `delinq_merge` is the 30-day table row for row, with the 90- and 180-day onsets looked up |
| Features.DelinqFeaturesMeaning | mortgage/E2E-dmo.py:311-331 | `delinq_merge` has exactly one row per loan that reached status 1 and no other row |
| Features.DelinqRowMeaning | mortgage/E2E-dmo.py:311-331 | each row of `delinq_merge` carries its loan's onsets for 1, 3 and 6, the epoch for one never reached |
| Features.OnsetsOrdered | mortgage/E2E-dmo.py:314-322 | where the later thresholds were reached, onset_30 <= onset_90 <= onset_180 |
| Features.CreateDelinqFeatures | mortgage/E2E-dmo.py:311-331 | defines `delinq_merge` as the two left joins of the onset tables for 1, 3 and 6; its meaning is stated by DelinqFeaturesRows, DelinqFeaturesMeaning and DelinqRowMeaning |
| Features.LookupDelinqMeaning | mortgage/E2E-dmo.py:338-343 | the lookup of a loan in `delinq_merge`, with the epoch fills, gives its three onsets |
| Features.JoinEverDelinqFeatures | mortgage/E2E-dmo.py:337-344 | defines the left join of `everdf` with `delinq_merge`, the epoch for an unmatched loan; its meaning is stated by LoanTableRows |
| Features.LoanTable | mortgage/E2E-dmo.py:152-154 | defines the per-loan table as the pipeline builds it; its meaning is stated by LoanTableKeys and LoanTableMeaning |
| Features.LoanTableRows | mortgage/E2E-dmo.py:337-344 | `join_ever_delinq_features` keeps `everdf` one-to-one and in order and attaches the onset lookup |
| Features.LoanTableKeys | mortgage/E2E-dmo.py:337-344 | the per-loan table has unique keys, those of `everdf`, and holds every input loan |
| Features.LoanTableMeaning | mortgage/E2E-dmo.py:337-344 | each per-loan row carries its loan's ever flags and its three onset dates |
| Features.NeverDelinquentGetsEpoch | mortgage/E2E-dmo.py:341-343 | a loan that never reached status 1 carries the epoch in all three onset columns, not -1 |
| Features.CreateJoinedDf | mortgage/E2E-dmo.py:350-378 | defines the left join of the renamed and filled performance rows with the per-loan table; its meaning is stated by JoinedTableRows and JoinedRowMeaning |
| Features.JoinedTable | mortgage/E2E-dmo.py:152-155 | defines `joined_df` as the pipeline builds it from the performance rows; its meaning is stated by JoinedTableRows and JoinedRowMeaning |
| Features.JoinedTableRows | mortgage/E2E-dmo.py:350-378 | `create_joined_df` returns one row per performance row, in order, and every row finds its loan's features |
| Features.JoinedRowMeaning | mortgage/E2E-dmo.py:350-378 | each per-loan-month row is its performance row with null status as -1, null balance as 999999999, its loan's ever codes and onsets |
| Features.AttachFeatures | mortgage/E2E-dmo.py:352-373 | defines one per-loan-month row: the renamed performance columns with their fills and the loan's features with the -1 fills; JoinedRowMeaning states its meaning |
| Features.EverCodeCases | mortgage/E2E-dmo.py:368-373 | ever code -1 exactly for loans without any status; codes in {-1, 0, 1}; ever_30 = 0 goes with epoch onsets |
| Windows.BucketBounds | mortgage/E2E-dmo.py:389-390 | an ordinal is in bucket `n` of offset `y` exactly when it lies in the twelve months from `24000 + 12n + y` |
| Windows.Bucket | mortgage/E2E-dmo.py:389-390 | defines `josh_mody_n`; BucketBounds states which twelve ordinals share a bucket |
| Windows.TargetYear | mortgage/E2E-dmo.py:397 | defines the year a bucket is labelled with; TargetOfBucket states that it is 2000 + n |
| Windows.TargetOfBucket | mortgage/E2E-dmo.py:397-398 | bucket `n` maps back to year 2000 + n, and with month `y` to the first month of its window |
| Windows.BucketMembership | mortgage/E2E-dmo.py:389-391 | a row is in group (loan, n) of offset `y` exactly when it is that loan's row in the window starting at the group's label |
| Windows.GroupMax | mortgage/E2E-dmo.py:391 | the `max` aggregate: null for an absent group, otherwise a member's value bounding all members' |
| Windows.GroupMin | mortgage/E2E-dmo.py:391 | the `min` aggregate: null for an absent group, otherwise a member's value below all members' |
| Windows.Label | mortgage/E2E-dmo.py:392-393 | the window label is in 0..2 and positive exactly when the maximum status is above 3 or the least balance is zero |
| Windows.WindowOf | mortgage/E2E-dmo.py:391-398 | the row of one group of offset `y` belongs to the group's loan and is labelled month `y`; WindowOfMeaning gives the rest |
| Windows.OffsetTable | mortgage/E2E-dmo.py:388-398 | defines the table of one offset as one window row per distinct group; its meaning is stated by OffsetRow, OffsetTableUnique and OffsetTableComplete |
| Windows.WindowOfMeaning | mortgage/E2E-dmo.py:388-398 | a group's row is labelled year 2000 + n, month y, and holds the least balance and the label of the twelve months from there |
| Windows.OffsetRow | mortgage/E2E-dmo.py:391-398 | row g of an offset's table is the window of its g-th distinct group |
| Windows.OffsetTableUnique | mortgage/E2E-dmo.py:391-398 | within one offset a (loan, year, month) key occurs at most once, and every row describes its window |
| Windows.OffsetTableComplete | mortgage/E2E-dmo.py:388-398 | every row whose month is `y` finds its own key in the table of offset `y` |
| Windows.ConcatStep | mortgage/E2E-dmo.py:400-404 | appending the table of offset k to those of offsets 1..k-1 keeps keys unique, rows described and every key found |
| Windows.Concat | mortgage/E2E-dmo.py:404 | defines `cudf.concat` of the offset tables in loop order; ConcatStep states what one more table adds |
| Windows.OffsetsUpToMeaning | mortgage/E2E-dmo.py:387-404 | the tables of offsets 1..k together have unique keys and months in 1..k, and hold the key of every row of those months |
| Windows.CreateTwelveMonFeatures | mortgage/E2E-dmo.py:384-404 | the loop appending one grouped table per offset returns the concatenation of the twelve tables |
| Windows.WindowTable | mortgage/E2E-dmo.py:384-404 | defines `testdf` as the concatenation of the twelve offset tables; its meaning is stated by WindowTableMeaning |
| Windows.WindowTableMeaning | mortgage/E2E-dmo.py:384-404 | the result has unique (loan, year, month) keys and labels in 0..2, describes the window from each label, and holds every row's key |
| Windows.CombineRows | mortgage/E2E-dmo.py:410-415 | the re-join keeps the per-month rows one-to-one and in order, each paired with the window row of its own key |
| Windows.CombineJoined12Mon | mortgage/E2E-dmo.py:410-415 | defines the re-join of the per-month rows with the window table; its meaning is stated by CombineRows, CombineRowMeaning and CombineOneToOne |
| Windows.AttachCarries | mortgage/E2E-dmo.py:411-415 | a window row of a row's own key, attached in place of the provisional columns, carries the window starting at its month |
| Windows.CombineRowMeaning | mortgage/E2E-dmo.py:410-415 | row i of the re-join carries the window that starts at row i's own month |
| Windows.AttachWindow | mortgage/E2E-dmo.py:411-415 | defines one row of the re-join: the per-month row without its provisional label and balance, with its window row's columns or nulls; CombineRowMeaning states its meaning |
| Windows.CombineOneToOne | mortgage/E2E-dmo.py:410-415 | the re-join neither drops nor duplicates rows, and every row gets its window's label and least balance, never null |
| Frames.NullWorkaroundOf | mortgage/E2E-dmo.py:134-140 | the workaround keeps the number of columns and their names in order |
| Frames.WorkaroundColumn | mortgage/E2E-dmo.py:136-139 | the workaround of one column keeps its name and length, leaves no category column and no null in a numeric column; NullWorkaroundMeaning gives its cells |
| Frames.NullWorkaroundMeaning | mortgage/E2E-dmo.py:134-140 | no numeric column holds a null; a category column becomes int32 codes with -1 for null; a numeric one keeps its type with -1 for null; others untouched |
| Frames.WorkaroundColumnIdempotent | mortgage/E2E-dmo.py:136-139 | the per-column policy applied twice equals applying it once |
| Frames.NullWorkaroundIdempotent | mortgage/E2E-dmo.py:134-140 | `null_workaround` applied twice equals applying it once |
| Frames.NullWorkaroundValid | mortgage/E2E-dmo.py:134-140 | the workaround keeps a table valid and its height |
| Frames.WorkaroundSettled | mortgage/E2E-dmo.py:136-139 | a non-category column without nulls is left as it is |
| Frames.NullWorkaround | mortgage/E2E-dmo.py:134-140 | the loop over the columns rewrites the caller's table to the workaround of its old columns and returns that same table |
| Frames.CatCodes | mortgage/E2E-dmo.py:137 | category codes give an int32 column of the same name and length in which each category cell becomes its code and every other cell, null included, is kept |
| Frames.FillNa | mortgage/E2E-dmo.py:139 | `fillna(v)` keeps name, type and length, turns each null into `v` and keeps every other cell, so a non-null `v` leaves no null |
| Frames.DataFrame.DropColumn | mortgage/E2E-dmo.py:454 | `drop_column` fails exactly when the name is missing, and otherwise removes that column alone |
| Frames.DataFrame.SetColumn | mortgage/E2E-dmo.py:458 | an update of column k replaces that column and nothing else |
| Frames.Without | mortgage/E2E-dmo.py:429-430 | a drop keeps exactly the columns whose names are not dropped, in order |
| Frames.WithoutWithout | mortgage/E2E-dmo.py:453-454 | dropping one set of names after another drops their union |
| Frames.WithoutValid | mortgage/E2E-dmo.py:429-430 | a drop keeps a table valid, leaves exactly the other names, and keeps the height |
| Frames.Assign | mortgage/E2E-dmo.py:424-427 | assignment replaces the column of that name in place or appends it, leaving every other column |
| Frames.AssignValid | mortgage/E2E-dmo.py:424-427 | assigning a column of the table's height keeps it valid, and the column is found under its name |
| Frames.AssignKeeps | mortgage/E2E-dmo.py:424-427 | assigning a column leaves every column of another name as found before |
| Frames.WithoutAssign | mortgage/E2E-dmo.py:424-430 | dropping the name of an assigned column undoes the assignment |
| Frames.MergeNames | mortgage/E2E-dmo.py:428 | a merge's columns are the left ones, then the right ones that are not keys |
| Frames.Merge | mortgage/E2E-dmo.py:428 | defines the left `merge` on named key columns; its meaning is stated by MergeNames and MergeOneToOne |
| Frames.MergeOneToOne | mortgage/E2E-dmo.py:428 | against unique right keys a left merge keeps the left columns unchanged and gives each left row its sole match's cells, or nulls |
| Frames.MergeThenDrop | mortgage/E2E-dmo.py:428-430 | dropping key names after such a merge leaves the left columns without them, then the merged-in columns |
| Frames.MergeThenDropValid | mortgage/E2E-dmo.py:428-430 | with only key names shared, the merge and drop give a valid table of the left height with the expected names |
| Frames.MergeThenDropColumn | mortgage/E2E-dmo.py:428-430 | a right non-key column comes out under its name and type, with each row's match's cell or null |
| Cleaning.ToFloat32 | mortgage/E2E-dmo.py:458 | the `float32` cast keeps exactly the nulls; otherwise an integer gives its value, a real itself, a date its millisecond count since the epoch, a category its code and a boolean 1 or 0 |
| Cleaning.CastColumn | mortgage/E2E-dmo.py:456-458 | one recast gives a float32 column of the same name and length whose every cell is the direct cast of the old one: going through `cat.codes` first changes no value |
| Cleaning.BinariseColumn | mortgage/E2E-dmo.py:459-460 | the label binarisation keeps name and length and gives an int32 column |
| Cleaning.CastAll | mortgage/E2E-dmo.py:455-458 | the table after the recasting loop has the same names, every column float32, and in row i of column k the cast of the old cell |
| Cleaning.FillAll | mortgage/E2E-dmo.py:461-462 | the table after the fill loop keeps names and types, holds no null, has the column's -1 where a cell was null and the old cell everywhere else |
| Cleaning.DropListUnique | mortgage/E2E-dmo.py:447-452 | the 18 names of the drop list are distinct |
| Cleaning.DropStep | mortgage/E2E-dmo.py:453-454 | the next `drop_column` succeeds exactly when the name was in the table and not dropped before, and it extends the drop by that name |
| Cleaning.DropsFail | mortgage/E2E-dmo.py:453-454 | a missing or repeated name stops the loop |
| Cleaning.DropColumns | mortgage/E2E-dmo.py:453-454 | the loop succeeds exactly when all names are present and distinct, and then leaves the table without them |
| Cleaning.DropListed | mortgage/E2E-dmo.py:453-454 | the drop loop succeeds exactly when every drop-list column is present, and then removes exactly those |
| Cleaning.RecastColumns | mortgage/E2E-dmo.py:455-458 | the recasting loop leaves the table recast column by column |
| Cleaning.FillColumns | mortgage/E2E-dmo.py:461-462 | the fill loop leaves every column filled with -1 |
| Cleaning.LastMileCleaning | mortgage/E2E-dmo.py:446-463 | the in-place method succeeds exactly when the cleaning is defined, and then leaves the cleaned table |
| Cleaning.LastMileFails | mortgage/E2E-dmo.py:446-463 | the cleaning fails exactly when a drop-list column or the label is missing |
| Cleaning.CastAndLabel | mortgage/E2E-dmo.py:455-462 | defines what follows the drop loop (recast, label, fill), failing when there is no label; its meaning is stated by CastAndLabelShape, CastAndLabelLabel and CastAndLabelFeatures |
| Cleaning.LastMileOf | mortgage/E2E-dmo.py:446-463 | defines the cleaned table, failing on a missing drop-list column or label; its meaning is stated by LastMileFails, LastMileNames, LastMileTypes, LastMileLabel and LastMileFeatures |
| Cleaning.CastAndLabelShape | mortgage/E2E-dmo.py:455-462 | after the drops the table stays valid with the same names, holds no null, and is float32 except the int32 label |
| Cleaning.CastAndLabelLabel | mortgage/E2E-dmo.py:459-460 | after the drops the label is 1 where it was positive and 0 elsewhere |
| Cleaning.LastMileNames | mortgage/E2E-dmo.py:446-454 | the output is valid and its columns are exactly those not on the drop list |
| Cleaning.LastMileTypes | mortgage/E2E-dmo.py:455-462 | the output holds no null, and every column is float32 except the int32 label |
| Cleaning.LastMileLabel | mortgage/E2E-dmo.py:459-460 | the output label is 1 where the input label was positive and 0 elsewhere, null counting as 0 |
| Cleaning.FeatureCell | mortgage/E2E-dmo.py:458-462 | what a feature cell of the cleaned table is: never null, -1 for a null cell, its `float32` cast otherwise |
| Cleaning.CastAndLabelFeatures | mortgage/E2E-dmo.py:455-462 | after the drops every column but the label holds, row for row, the cast of its old cell (a category cell its code), or -1 where that cell was null |
| Cleaning.LastMileFeatures | mortgage/E2E-dmo.py:446-462 | every output column but the label is an input column that holds, row for row, the `float32` cast of the input cell, or -1 where the input cell was null |
| Cleaning.PositiveCast | mortgage/E2E-dmo.py:458-460 | the float32 cast keeps, cell by cell, whether the label is positive |
| Assembly.CombinedTableMeaning | mortgage/E2E-dmo.py:152-158 | from the performance rows to `combine_joined_12_mon`: one row per performance row, in order, each carrying its window |
| Assembly.CombinedTable | mortgage/E2E-dmo.py:152-158 | defines `joined_df` after `combine_joined_12_mon` as the pipeline builds it; its meaning is stated by CombinedTableMeaning |
| Assembly.JoinedMonths | mortgage/E2E-dmo.py:355-356 | the per-loan-month table has one row per performance row, each with a calendar month in 1..12 |
| Assembly.MonthColumn | mortgage/E2E-dmo.py:424-425 | `timestamp_month` is an int8 column of the period's length |
| Assembly.YearColumn | mortgage/E2E-dmo.py:426-427 | `timestamp_year` is an int16 column of the period's length |
| Assembly.WithTimestamps | mortgage/E2E-dmo.py:424-427 | the helper assignments add exactly the two helper names |
| Assembly.HasPeriodWorkaround | mortgage/E2E-dmo.py:422 | the workaround keeps a date-typed reporting period and creates none |
| Assembly.ColumnNamedWorkaround | mortgage/E2E-dmo.py:422-423 | after the workaround a column is found under its name, rewritten by the policy |
| Assembly.FinalPerformanceFails | mortgage/E2E-dmo.py:421-431 | the stage fails exactly when the period is missing or not a date, `loan_id` is missing, or a key is missing on the right |
| Assembly.FinalPerformanceOf | mortgage/E2E-dmo.py:421-431 | defines the result of `final_performance_delinquency`, failing where the library raises; its meaning is stated by FinalPerformanceFails, FinalPerformanceRows, FinalPerformanceValid and FinalPerformanceColumn |
| Assembly.TimestampKeys | mortgage/E2E-dmo.py:424-428 | after the helper assignments, row i's key is its loan id and its period's year and month |
| Assembly.FinalPerformanceRows | mortgage/E2E-dmo.py:421-431 | with unique right keys every performance row is kept once and in order, followed by the matched per-loan-month columns |
| Assembly.FinalPerformanceValid | mortgage/E2E-dmo.py:421-431 | the result is a valid table of the performance height holding the performance names (no helpers) and the non-key per-loan-month names |
| Assembly.FinalPerformanceColumn | mortgage/E2E-dmo.py:428-431 | a non-key per-loan-month column arrives under its name and type, with each row's match's cell or null |
| Assembly.JoinPerfAcqOf | mortgage/E2E-dmo.py:437-440 | the join fails exactly when either side has no `loan_id` |
| Assembly.JoinPerfAcqRows | mortgage/E2E-dmo.py:437-440 | with one acquisition row per loan, every performance row is kept once and in order, followed by the matched acquisition columns |
| Assembly.PerformanceColumnsSettled | mortgage/E2E-dmo.py:438 | the second workaround leaves alone every column the first one produced |
| Assembly.JoinPerfAcqValid | mortgage/E2E-dmo.py:437-440 | the join is a valid table of the performance height holding both sides' names but the acquisition `loan_id` |
| Assembly.JoinKeepsColumn | mortgage/E2E-dmo.py:438-440 | a performance column reaches the joined table as the workaround left it |
| Workflow.JoinedFrameValid | mortgage/E2E-dmo.py:410-415 | `joined_df` as a table is valid, one cell per combined row, with the library's column names |
| Workflow.JoinedFrame | mortgage/E2E-dmo.py:410-415 | defines the column layout of `joined_df` after `combine_joined_12_mon`; JoinedFrameValid and JoinedLinesUp state its meaning |
| Workflow.CombinedFilled | mortgage/E2E-dmo.py:415 | every combined row finds its window, so no label or balance is null |
| Workflow.JoinedFrameSettled | mortgage/E2E-dmo.py:423 | the workaround leaves the per-loan-month table as it is |
| Workflow.JoinedFrameKeys | mortgage/E2E-dmo.py:428 | row i of the per-loan-month table has performance row i's key, and with one row per loan-month those keys are unique |
| Workflow.PerfFrameKeys | mortgage/E2E-dmo.py:422-428 | after the workaround and the helper assignments, performance row i has its typed row's key |
| Workflow.JoinedLinesUp | mortgage/E2E-dmo.py:423-428 | the per-loan-month table built from the rows lines up with them |
| Workflow.RejoinCell | mortgage/E2E-dmo.py:428 | the re-join gives performance row i row i's cell of a table that lines up |
| Workflow.RejoinCarries | mortgage/E2E-dmo.py:421-431 | the re-join succeeds, has one row per performance row, and every non-key column arrives with its type and cells in the same rows |
| Workflow.JoinedLabel | mortgage/E2E-dmo.py:392-393 | the per-loan-month label column is int32 and holds each combined row's `delinquency_12` |
| Workflow.JoinThenClean | mortgage/E2E-dmo.py:437-463 | after the acquisition join and the cleaning, row i of the label is 1 exactly when row i of the incoming label is positive |
| Workflow.ClashAfterRejoin | mortgage/E2E-dmo.py:440 | after the re-join only `loan_id` can be shared with the acquisition table |
| Workflow.PipelineLabel | mortgage/E2E-dmo.py:160-165 | through the last three stages, output label row i is 1 exactly when the per-loan-month label of row i is positive |
| Workflow.PipelineOf | mortgage/E2E-dmo.py:160-165 | defines the last three stages in sequence; PipelineLabel states the label it produces |
| Workflow.WorkflowOf | mortgage/E2E-dmo.py:152-165 | defines the pipeline from the performance rows on; WorkflowLabel states the label it produces |
| Workflow.LabelPositive | mortgage/E2E-dmo.py:392-393 | a window label is positive exactly when some status in the window is above 3 or the least balance is zero |
| Workflow.CombinedLabels | mortgage/E2E-dmo.py:152-158 | combined row i's label is positive exactly when row i's loan has, in the twelve months from its month, a status above 3 or a zero least balance |
| Workflow.JoinedReady | mortgage/E2E-dmo.py:156-160 | the per-loan-month table meets what the re-join needs, and its label column holds each combined row's label, never null |
| Workflow.WorkflowLabel | mortgage/E2E-dmo.py:142-166 | end to end: output label row i is 1 exactly when, in the twelve months of row i's loan from its month, a status is above 3 or the least balance is zero |

## Left out

- The seller-name remap (lines 146-149) is not modelled. It needs the label dictionaries of category columns, and the model keeps only category codes.
- The CSV loaders (`gpu_load_performance_csv`, `gpu_load_acquisition_csv`, `gpu_load_names`) are not modelled. Their output is the typed `PerfRow` sequence and the tables passed as parameters.
- The Dask cluster, the RMM pool, file discovery, task submission, the Arrow and DMatrix conversion and the XGBoost training are not modelled. They are I/O, distributed scheduling and foreign libraries.
- `to_arrow` at the end of `last_mile_cleaning` is not modelled. The model returns the cleaned table.
- Cleaning.ToFloat32: does not model `float32` rounding. A value is kept exactly as a real, and a date becomes its exact millisecond count.
- Windows.Bucket: the float64 `.floor()` of the bucket and the target-year formulas is modelled as integer floor division. The two agree for the integer ordinals involved.
- Dates are (year, month, day) triples with a month in 1..12 and a day in 1..31. Days past the end of a month, such as 2001-02-31, are admitted although no `datetime64` column holds them. No stated property depends on this.
- Integer widths (`int8`, `int16`, `int32`) are recorded as column types only. Values are unbounded integers, with no wrap-around on a cast.
- `fillna(-1)` on a `datetime64[ms]` column is modelled as the date 1969-12-31 (one millisecond before the epoch), not as a millisecond count.
- Hash join and hash group-by row order is not modelled. The model fixes one order: left order for joins and order of first appearance for groups. Properties are stated row for row in that order.
- Merge suffixes for clashing non-key column names are not modelled. The merge lemmas require that the two sides share only key names (`Assembly.ClashOnly`), which the pipeline's schemas meet.
- Null key cells in a merge are compared like any other value, so a null key matches a null key. The library option that changes this is not modelled.
- Frames.NullWorkaround: the in-place method models the update of the caller's table. The functions that use the stage (`final_performance_delinquency`, `join_perf_acq_gdfs`) model it on values. The aliasing effect on the caller's `gdf` and `joined_df` is therefore not modelled.
- The in-place `timestamp_month`/`timestamp_year` assignments in `final_performance_delinquency` are modelled on values (`Assembly.WithTimestamps`).
- Workflow.WorkflowLabel: the statement assumes one performance row per loan and month. It also assumes one acquisition row per loan, and that the acquisition table shares no name but `loan_id` with the other tables. The source does not check these.
