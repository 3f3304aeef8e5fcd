# Data cleaner: a verified model of the cleaning pipeline

The program loads a CSV file into a pandas DataFrame, cleans it in four fixed
stages, and writes out the cleaned table and a summary report. The stages are:

1. drop duplicate rows (`df.drop_duplicates`);
2. fill missing values column by column (`handle_missing_values`);
3. convert columns that parse as dates (`convert_date_columns`);
4. remove interquartile-range outliers from the numeric columns (`remove_outliers`).

This project models those four stages and their composition (`clean_data`) in
Dafny, and proves what each stage guarantees.

The table is modelled as follows:

- A table is a sequence of rows over a fixed list of column kinds (`Numeric`,
  `Temporal` for datetime, `Categorical` for everything else).
- A cell is `Missing` (NaN/NaT/None) or a present value.
- Numbers are exact reals, timestamps are integers, and text values are integer
  codes whose order is the order of the strings.
- `DataModel.DataFrame` is the frame the first three stages update in place. The
  module-level methods `Dedup.DropDuplicates`, `Impute.HandleMissingValues` and
  `Dates.ConvertDateColumns` take the frame and modify it. Each is proved to
  leave exactly the table a specification function describes (`Deduplicated`,
  `Imputed`, `DatesConverted`).
- The in-place `fillna` calls are loops over the cells (`Impute.FillGaps`,
  `Impute.ForwardFill`), and the boolean mask of `remove_outliers` is a loop
  over the rows (`Outliers.FilterColumn`).
- `remove_outliers` rebinds `df` to filtered copies, so it is modelled on table
  values. Its loop is `SweepColumns`, proved against the function `Sweep`.
- The statistics pandas supplies are written out in `Stats`:
  - the median;
  - the linear quantile (numpy's default method);
  - the mode, with the smallest value winning a tie.
- The date parser (`pd.to_datetime`) is a parameter: a partial function from a
  value to a timestamp.

Files: `datamodel.dfy`, `stats.dfy`, `dedup.dfy`, `impute.dfy`, `dates.dfy`,
`outliers.dfy`, `cleaner.dfy`.

### Behaviour of the code worth knowing

These behaviours follow from the code. A casual reading of the program would not
expect them:

- **A small sample keeps its largest value.** With linear quartiles, the values
  `1, 100, 2` get Q1 = 1.5 and Q3 = 51. With threshold 1.5 that gives the fence
  [−72.75, 125.25], so the row with 100 is *kept*, not removed as an outlier
  (`Cleaner.SmallSampleFence`, `Cleaner.SampleIsCleanedWithoutOutliers`).
- **An all-missing column becomes a datetime column.** The parser has nothing
  to reject, so a column with no present cell is converted to datetime,
  whatever its kind (`Dates.AllMissingColumnBecomesDatetime`).
- **Date conversion can disable outlier removal.** Date conversion runs before
  outlier removal and tries every column, numeric ones included.
  `pd.to_datetime` accepts numbers (as epoch offsets). When the parser accepts
  every number, every numeric column becomes a datetime column, and outlier
  removal finds nothing to filter (`Cleaner.NumericParserDisablesOutlierStage`).
- **Forward fill never runs in the pipeline.** The file is read without
  `parse_dates`, so a freshly loaded frame has no datetime column. Imputation
  also runs before date conversion. So in `clean_data` the `ffill` branch
  (`Impute.ForwardFill`, the datetime case of `Impute.ImputeColumn`) never
  fires. The model still accepts datetime columns on input, which covers more
  than the program needs.
- **Duplicates can come back.** Duplicates are dropped before imputation, so
  filling can make two kept rows equal again
  (`Cleaner.DuplicatesCanReappearAfterImputation`).

## Model

| member | source | states |
|---|---|---|
| DataModel.DataFrame.constructor | main.py:95 | the frame holds the loaded table and is well formed |
| Dedup.Unique | main.py:107 | the result holds exactly the elements of the input, has no repeated element and is no longer than the input |
| Dedup.UniqueKeepsFirstOccurrenceOrder | main.py:107 | the kept rows appear in the order of their first occurrences in the input |
| Dedup.Deduplicated | main.py:106-108 | dropping duplicates keeps the column kinds and keeps a well-typed frame well typed |
| Dedup.DropDuplicates | main.py:106-108 | the one-pass loop leaves the frame holding exactly the first occurrence of every row, in order |
| Stats.Sort | main.py:36 | the result is sorted and a permutation of the input |
| Stats.Min | main.py:36 | the result is a value of the input and no value is smaller |
| Stats.Max | main.py:36 | the result is a value of the input and no value is larger |
| Stats.Rank | main.py:48-49 | the interpolation position `(num/den)·m` split into a whole part and a remainder, with the whole part within bounds |
| Stats.QuantileOfSorted | main.py:48-49 | on sorted values, probability 0 gives the first value, probability 1 the last, and every quantile lies between them |
| Stats.RankAtEnds | main.py:48-49 | probability 0 sits exactly on the first position and probability 1 exactly on the last, with no remainder |
| Stats.Interpolate | main.py:48-49 | a whole position gives the value there; otherwise the result lies between the two neighbouring values |
| Stats.Quantile | main.py:48-49 | `Series.quantile` at probability 0 is the smallest value and at probability 1 the largest |
| Stats.Median | main.py:36 | `Series.median` lies between the lower and the upper middle of the sorted values |
| Stats.QuantileWithinRange | main.py:48-49 | every linear quantile lies between the smallest and the largest value |
| Stats.QuantileMonotone | main.py:48-50 | a larger probability never gives a smaller quantile, so Q1 ≤ Q3 and the IQR is non-negative |
| Stats.MedianIsMiddleQuantile | main.py:36 | the median (the middle value, or the mean of the two middle values) is the quantile at one half |
| Stats.MedianWithinRange | main.py:36 | the median lies between the smallest and the largest value |
| Stats.Best | main.py:40 | the winner is a candidate and no candidate ranks ahead of it by count, with the smaller value winning a tie |
| Stats.Mode | main.py:40 | the result is a most frequent value, and the smallest of the most frequent values |
| Stats.ModeIsUnique | main.py:40 | only one value is the smallest mode, so the tie-break is deterministic |
| Impute.CountMissing | main.py:34 | `isnull().sum()` is at most the column length and is zero exactly when no cell is missing |
| Impute.HasMissing | main.py:34 | the column is filled only when some cell is missing |
| Impute.FillMissing | main.py:36-40 | `fillna(value)` keeps the length and every present cell, and leaves no missing cell when the value is present |
| Impute.FillGaps | main.py:36-40 | the in-place cell loop produces exactly the `fillna(value)` column |
| Impute.FillForward | main.py:38 | `ffill` keeps the length and never fills the first row, which has nothing above it |
| Impute.ForwardFill | main.py:38 | the in-place cell loop, each missing cell taking the value settled above it, produces exactly the `ffill` column |
| Impute.LastPresentIndex | main.py:38 | the last present position, with only missing cells after it, or −1 when there is none |
| Impute.FillForwardTakesNearestPrecedingValue | main.py:38 | forward fill gives every row the nearest present value at or above it |
| Impute.FillForwardKeepsPresentCells | main.py:38 | forward fill never changes a present cell and only copies cells of the column |
| Impute.NearestAtOrAboveSpec | main.py:38 | the nearest value above is missing exactly when every cell down to the row is missing, and otherwise is a present cell with only missing cells after it |
| Impute.ImputeColumn | main.py:33-40 | filling keeps the length, never changes a present cell, leaves a column without missing cells untouched and keeps the column well typed |
| Impute.MedianFillsNumericColumn | main.py:35-36 | a numeric column with a missing cell gets every missing cell set to the median, which lies between the smallest and largest value, and has no missing cell left; with no number at all it stays as it was |
| Impute.ForwardFillsTemporalColumn | main.py:37-38 | a datetime cell ends up missing exactly when it and every cell above it were missing, and otherwise holds the nearest present value at or above it |
| Impute.ModeFillsTextColumn | main.py:39-40 | a text column with a present value gets every missing cell set to the smallest most frequent value, and has no missing cell left |
| Impute.Imputed | main.py:32-42 | every column is filled on its own and the kinds, the row count and well-typedness are kept |
| Impute.FillColumn | main.py:34-40 | the dtype dispatch, running the in-place fill loops, leaves the column `ImputeColumn` describes |
| Impute.HandleMissingValues | main.py:32-42 | the column loop leaves the frame holding the imputed table |
| Dates.ParseAll | main.py:63 | parsing succeeds exactly when every present cell parses, and then gives the parsed cell at every position |
| Dates.ToDatetime | main.py:63 | `pd.to_datetime` succeeds exactly when the column is already datetime (returned unchanged) or every present cell parses, and keeps the length and every missing cell |
| Dates.ConvertColumn | main.py:62-66 | a column is either replaced wholesale by parsed timestamps and becomes datetime, or left identical with its kind; a datetime column stays as it is |
| Dates.ConvertedColumnIsTemporal | main.py:63 | a converted column holds values of its new kind, missing exactly where the original was missing |
| Dates.AllMissingColumnBecomesDatetime | main.py:62-64 | a column with no present cell becomes a datetime column of missing cells |
| Dates.DatesConverted | main.py:60-67 | each column is converted independently and well-typedness and the shape are kept |
| Dates.ConvertDatesIdempotent | main.py:60-67 | converting a second time changes nothing |
| Dates.ConvertDateColumns | main.py:60-67 | the column loop leaves the frame holding the converted table |
| Outliers.ColumnFence | main.py:48-51 | a column has a fence exactly when it has a present number |
| Outliers.FirstQuartile | main.py:48 | Q1 lies between the smallest and the largest value |
| Outliers.ThirdQuartile | main.py:49 | Q3 lies between Q1 and the largest value, so the IQR is non-negative |
| Outliers.Widened | main.py:50-51 | the fence is centred on the quartiles' midpoint, is (1 + 2k)·IQR wide, and for k ≥ 0 contains both quartiles |
| Outliers.Admits | main.py:53 | the inclusive comparisons admit only a present number and nothing when there is no fence (NaN fails both) |
| Outliers.BetweenQuartilesIsKept | main.py:48-53 | for a non-negative threshold a value between its column's quartiles is never removed |
| Outliers.KeepAdmitted | main.py:53 | the boolean mask never adds rows and keeps whole rows |
| Outliers.KeepAdmittedMembers | main.py:53 | the mask keeps exactly the rows whose cell lies inside the inclusive fence |
| Outliers.KeepAdmittedKeepsAll | main.py:53 | a fence admitting every cell keeps every row |
| Outliers.KeepAdmittedKeepsAllIff | main.py:53 | the mask drops nothing exactly when the fence admits every row's cell |
| Outliers.NumericColumns | main.py:46 | exactly the numeric column positions, in increasing order |
| Outliers.NoNumericColumns | main.py:46-47 | there is no column to filter exactly when no column is numeric |
| Outliers.Sweep | main.py:47-53 | cumulative filtering never adds rows and keeps whole rows |
| Outliers.SweepIsSinglePassFilter | main.py:47-53 | cumulative filtering is one order-preserving pass over the input keeping the rows every fence admits |
| Outliers.KeepAdmittedByAllMembers | main.py:53 | the single pass keeps exactly the input rows every fence admits |
| Outliers.FilterComposes | main.py:47-53 | filtering by one more fence after a single pass is the single pass with that fence added |
| Outliers.Dropped | main.py:52-54 | `before − len(df)` is at most the rows present before the column and is zero exactly when the column's fence admits every one of them |
| Outliers.Removed | main.py:52-56 | one count per numeric column, in order, none larger than the input's row count |
| Outliers.RemovedCountsAddUp | main.py:52-54 | the per-column `before − len(df)` counts add up to the number of rows removed in total |
| Outliers.OutliersRemoved | main.py:45-57 | outlier removal keeps the kinds and never adds rows |
| Outliers.SurvivorsAreAdmittedByAllFences | main.py:46-53 | each numeric column's fence is the quartile fence of that column in the table as it stood when the column was processed, and a row survives exactly when it is an input row whose every numeric value lies inside its column's fence |
| Outliers.OutliersRemovedWellTyped | main.py:53 | outlier removal keeps the frame well typed |
| Outliers.SurvivorsHaveNoMissingNumber | main.py:53 | no surviving row has a missing value in a numeric column |
| Outliers.AllMissingNumericColumnEmptiesTable | main.py:48-53 | a numeric column with no present value removes every row |
| Outliers.FilterColumn | main.py:48-54 | the row-by-row mask keeps, in order, exactly the rows whose cell the column's fence admits, and counts the rows dropped |
| Outliers.SweepColumns | main.py:47-56 | the loop computes the cumulative filter and the count each column drops |
| Outliers.RemoveOutliers | main.py:45-57 | the result is the cumulative filter over the numeric columns fixed at entry, with the per-column counts |
| Cleaner.Cleaned | main.py:105-118 | the cleaned table is well typed, keeps the columns and has no more rows than the deduplicated table, which has no more than the input |
| Cleaner.CleanData | main.py:93-118 | the stages run in the order deduplicate, impute, convert dates, remove outliers; the logged duplicate and outlier counts are returned |
| Cleaner.ParsedNumericColumnIsNotNumeric | main.py:63 | when the parser accepts every number, a numeric column is converted away from numeric |
| Cleaner.NumericParserDisablesOutlierStage | main.py:112-118 | when the parser accepts every number, outlier removal changes nothing |
| Cleaner.DuplicatesCanReappearAfterImputation | main.py:105-112 | a table with `1` and a missing cell keeps both rows, and imputation makes them equal |
| Cleaner.TieGoesToSmallerCode | main.py:40 | two values occurring once each give the smaller one as the mode |
| Cleaner.SmallSampleFence | main.py:48-51 | the values 1, 100, 2 with threshold 1.5 give the fence [−72.75, 125.25] |
| Cleaner.SampleIsCleanedWithoutOutliers | main.py:105-118 | on the sample, one duplicate is dropped, the missing text cell gets the tied smaller value and no row is removed as an outlier, whatever the parser |

## Left out

- Loading and saving are not modelled: `pd.read_csv`, `to_csv`, the output paths
  and the base file name. The loaded table is the input of `CleanData`.
- The missing-input-file branch (`FileNotFoundError`) is not modelled.
- `generate_summary` is not modelled; it only formats and writes a report.
- Logging and console printing are not modelled. The counts the program logs are
  returned as results instead: duplicates dropped, and rows removed per numeric
  column. The program logs a column's count only when it is above zero; the
  returned counts include the zeros (`Outliers.Dropped` says when a count is
  zero).
- `config.json` is not modelled. The outlier threshold is the parameter `k`
  (1.5 by default in the program). `missing_value_strategy` is read but never
  used.
- Floating point is not modelled. Numbers are exact reals with NaN modelled as
  `Missing`, so rounding in the quantile and median arithmetic is not captured.
- Timestamps are integers.
- How `pd.to_datetime` parses is a parameter (`Dates.Parser`). Its formats,
  inference and locale handling are outside the model. The parser works on one
  value at a time, while pandas 2 infers one format from the first present value
  and applies it to the whole column. So the model cannot express that such a
  column raises although each cell parses on its own, or that a cell's timestamp
  depends on its neighbours.
- Column dtypes are fixed kinds: numeric, datetime, or anything else.
  - Boolean columns, integer columns turning float when they hold NaN, and
    mixed-type object columns are not distinguished.
  - Text values are integer codes, so the mode's tie-break compares codes in
    place of strings.
- Impute.ImputeColumn: a text column with no present value is left unchanged.
  The program would raise `KeyError` from `mode()[0]` on the empty mode. A
  column read from a CSV file never has that shape and a numeric dtype would
  apply, so the error path is not modelled.
- `df[col].fillna(..., inplace=True)` is assumed to update the frame, as it does
  without pandas' copy-on-write mode. Under copy-on-write the fill would be lost.
- Column names are not modelled; columns are positions, and names appear only
  in log messages.
