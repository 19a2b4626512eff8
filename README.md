# Workout log analysis — a Dafny model of `graph.py`

`graph.py` reads a workout log exported as CSV. Each row is one logged set, with
Date, Workout Name, Exercise Name, Weight, Reps, Sets and Notes. The script derives
per-exercise progress series and a weekly workout count from these rows. This
project models the computation behind those figures and proves what each step
promises.

- **`common.dfy`, module `Common`.** Missing cells (`Option`), aborting operations
  (`Result`) and boolean-mask selection (`Filter`, with `FilterMembership`, `FilterPasses` and
  `FilterKeeps`).
- **`records.dfy`, module `Records`.** The row (`Record`), the three numeric columns,
  and the latest and earliest date of a table.
- **`loader.dfy`, module `Loader`.** `read_data` after parsing. The `WorkoutTable`
  class holds the rows that the source mutates in place, in three steps:
  - it fills each numeric column's missing cells with that column's median;
  - it drops exact duplicates;
  - it sorts by date.

  `ReadData` runs these steps on a fresh table. The median, the fill, the
  de-duplication and the date order are specified by functions, and their
  properties are proved as lemmas.
- **`metrics.dfy`, module `Metrics`.** The four metric functions: best set, total
  volume, max consecutive reps (a `diff`/`cumsum` run counter) and the Epley-style
  one-rep max.
- **`aggregator.dfy`, module `Aggregator`.** `plot_metric_over_time` without the
  figures:
  - group by exercise and keep exercises logged at least `min_exercises` times;
  - drop rows missing Weight or Reps;
  - apply the optional `last_x_days` window;
  - apply the metric and reduce it to one maximum per date, in ascending date order.

  `MetricOverTime` is the loop over the kept exercises.
- **`frequency.dfy`, module `Frequency`.** `plot_workouts_per_week` without the bar
  chart. It keeps the rows of the last `last_x_weeks` weeks, bins them into weeks
  that end on Sunday, and counts the distinct workout names in each week.

Missing values are `None`. Arithmetic is exact (`real`), and a product with a
missing operand is missing, as NaN is. A date is a proleptic Gregorian day number
in which day 1 is Monday 0001-01-01, so a day is a Sunday exactly when it is
divisible by 7.

Where the code and its own documentation differ, the model follows the code:

- **Unstable sort.** `sort_values` is called with its default, non-stable sort.
  `SortByDate` and `ReadData` therefore promise only date order and the same rows,
  not the relative order of rows that share a date.
- **Empty groups raise.** When a kept exercise's group becomes empty, line 75 reads
  `iloc[0]` and raises `IndexError`; the exercise is not silently skipped. A group
  becomes empty when every row lacks Weight or Reps, or when `last_x_days` is
  negative. `MetricOverTime` returns `Failure(EmptyGroup)` in that case.
- **Weeks are labelled by their last day.** Weekly bins are closed on the right and
  labelled by their Sunday, not by their first day.
- **A window can touch one extra week.** A window of `last_x_weeks` weeks can reach
  `last_x_weeks + 1` calendar weeks (`WeekCountBound`, `WindowCanTouchExtraWeek`).
- **The last label can lie after the latest date.** A week is labelled by its
  closing Sunday, so the last reported week's label can fall up to six days after
  the latest logged date. With rows on days 1 and 8 (two Mondays) and a one-week
  window, the labels are days 7 and 14, while the latest date is day 8 (`WeekSpan`,
  `WindowCanTouchExtraWeek`).
- **The default `min_exercises` is 0.** The docstring says 100; the model uses the
  code's 0.

## Model

| member | source | states |
|---|---|---|
| Common.FilterMembership | graph.py:90 | a row survives a boolean mask exactly when it is in the table and satisfies the mask |
| Common.Filter | graph.py:55 | a boolean-mask selection is never longer than the table it selects from |
| Common.FilterPasses | graph.py:61 | every row a mask keeps satisfies the mask |
| Common.FilterKeeps | graph.py:55-61 | a property every row of the table has, every row of a selection has, so successive selections keep what earlier ones established |
| Common.FilterAll | graph.py:55 | a mask that every row satisfies keeps the table unchanged |
| Common.FilterNone | graph.py:90 | a mask that no row satisfies keeps nothing |
| Records.MaxDate | graph.py:59 | `Date.max()` of a non-empty table is the date of one of its rows and no row is later |
| Records.MinDate | graph.py:92 | the earliest date is the date of one of the rows and no row is earlier |
| Loader.AscendingUnique | graph.py:14 | two ascending arrangements of the same multiset of values are equal, so "the sorted column" is well defined |
| Loader.SortReals | graph.py:14 | the sorted column is ascending and has exactly the column's values |
| Loader.HeadsAgree | graph.py:14 | two ascending arrangements of the same values start with the same value and continue with the same values |
| Loader.Median | graph.py:14 | the median is present exactly when the column has at least one value |
| Loader.MedianWithinValues | graph.py:14 | the median lies between two of the column's values |
| Loader.MedianIsMiddle | graph.py:14-16 | the median is the middle value (or the mean of the two middle values) of any ascending arrangement of the present values |
| Loader.MedianOrderIndependent | graph.py:14-16 | the median depends only on the multiset of values, not on row order |
| Loader.ColumnValues | graph.py:14 | the present values of a column are empty exactly when no row has a value in that column, and there are no more of them than rows |
| Loader.ColumnValuesPresent | graph.py:14 | a value is among a column's values exactly when some row holds it in that column |
| Loader.ColumnMedian | graph.py:14-16 | a column's median is missing exactly when the whole column is missing |
| Loader.FillCellEffect | graph.py:14-16 | filling a cell sets it to the median only if it was missing; every other cell and field is kept |
| Loader.FillKeepsOtherColumn | graph.py:14-16 | filling one column leaves the values of every other column as they were |
| Loader.FillColumn | graph.py:14-16 | filling a column keeps one row per input row, in place |
| Loader.Imputed | graph.py:14-16 | the imputed table has one row per input row (the per-row effect is `ImputedRow`) |
| Loader.ImputedStepByStep | graph.py:14-16 | filling Weight, then Reps, then Sets, each with the median of the table as it then stands, equals filling all three with the medians of the input |
| Loader.ImputedRow | graph.py:14-16 | each imputed cell is the input cell if present, else that column's median over all input rows; date, names and notes are untouched |
| Loader.ImputedHasNoGaps | graph.py:14-16 | after imputation no row lacks a value in a column that had any value |
| Loader.Dedup | graph.py:19 | the de-duplicated table has no repeated row and holds exactly the rows of its input |
| Loader.WorkoutTable.constructor | graph.py:11 | the new table holds the parsed rows |
| Loader.WorkoutTable.FillMissingWithMedian | graph.py:14-16 | the loop replaces each row by its filled version, with the median taken before the fill |
| Loader.WorkoutTable.DropDuplicates | graph.py:19 | the loop leaves the first copy of every distinct row, in order of first occurrence |
| Loader.WorkoutTable.SortByDate | graph.py:25 | the rows end up in date order and form a permutation of the rows before the sort |
| Loader.InsertByDate | graph.py:25 | inserting a row into a date-sorted table keeps it date-sorted and adds exactly that row |
| Loader.ReadData | graph.py:6-27 | the result is date-sorted and free of duplicates; it has the same rows as the de-duplicated imputed input; every column that had any value has no gaps |
| Loader.PermutationOfDistinct | graph.py:19-25 | sorting a duplicate-free table keeps it duplicate-free and keeps its rows |
| Loader.CountInNoDuplicates | graph.py:19 | in a duplicate-free table every row occurs at most once |
| Metrics.Times | graph.py:109 | a product is present exactly when both factors are, and is then their product |
| Metrics.BestSet | graph.py:108-109 | the best-set column has one value per row (each value is given by `BestSetIsLoad`) |
| Metrics.TotalVolume | graph.py:112-113 | the total-volume column has one value per row (each value is given by `TotalVolumeScalesBestSet`) |
| Metrics.OneRepMax | graph.py:120-121 | the one-rep-max column has one value per row (each value is given by `OneRepMaxEstimate`) |
| Metrics.BestSetIsLoad | graph.py:108-109 | the best set of a row is Weight times Reps, present exactly when both are |
| Metrics.TotalVolumeScalesBestSet | graph.py:112-113 | total volume is the best set times Sets, and equals the best set for a single set |
| Metrics.OneRepMaxEstimate | graph.py:120-121 | the estimate is present exactly when Weight and Reps are; it equals the weight at zero reps and is never below the weight for non-negative inputs |
| Metrics.OneRepMaxMonotone | graph.py:120-121 | more weight and more reps never give a lower estimate |
| Metrics.StreakId | graph.py:117 | the `cumsum` of the streak openings up to row i lies between 1 and i + 1 |
| Metrics.StreakIdCountsOpenings | graph.py:117 | that running sum is the number of rows up to i that open a streak (the first row, or Reps not one more than the previous Reps) |
| Metrics.MaxConsecutiveReps | graph.py:116-117 | each value is present and between 0 and i + 1; it is 0 exactly on rows whose Reps is not 1; the first row gives 1 exactly when its Reps is 1 |
| Metrics.MaxConsecutiveRepsCountsOpenings | graph.py:116-117 | on a row with Reps 1 the value is the number of streak openings so far, otherwise 0 |
| Metrics.Apply | graph.py:64 | the metric yields one value per row of the group |
| Aggregator.MaxOn | graph.py:67-68 | the per-date maximum skips missing values; it is missing exactly when every value on that date is, is one of those values, and bounds all of them |
| Aggregator.DistinctSorted | graph.py:67 | the date keys are strictly ascending and are exactly the dates of the group |
| Aggregator.MaxPerDate | graph.py:67-68 | one point per distinct date, dates strictly ascending, each carrying the maximum on its date |
| Aggregator.MaxPerDateIsMaximum | graph.py:68 | each point's value bounds every value of its date, is one of them, and is missing only when all of them are |
| Aggregator.ExerciseGroup | graph.py:47-51 | an exercise's group is a selection of the table whose every row carries that exercise's name |
| Aggregator.PopularExercises | graph.py:49-51 | the kept exercises are exercise names of the table, each logged at least `min_exercises` times |
| Aggregator.PopularExercisesCounted | graph.py:47-51 | an exercise is kept exactly when it occurs at least `min_exercises` times in the whole table; with a threshold of at most 1 (the default is 0) all exercises are kept |
| Aggregator.DropMissing | graph.py:55 | `dropna` on Weight and Reps never adds rows, and every row it keeps has both values |
| Aggregator.KeepFrom | graph.py:60-61 | the date mask never adds rows, and every row it keeps is dated on or after the cutoff |
| Aggregator.KeepFromMember | graph.py:60-61 | the date mask keeps exactly the rows of the group dated on or after the cutoff |
| Aggregator.LatestRowKept | graph.py:59-61 | a cutoff no later than the latest date keeps a row of the latest date |
| Aggregator.NothingAfterLatest | graph.py:59-61 | a cutoff after the latest date keeps no row |
| Aggregator.RecentRows | graph.py:58-61 | the day window never adds rows; with a day filter on a non-empty group every kept row is dated at or after the latest date minus `last_x_days` days |
| Aggregator.RecentRowsKept | graph.py:58-61 | with a day filter, a row is kept exactly when it is dated no more than `last_x_days` days before the group's latest date |
| Aggregator.RecentRowsWindow | graph.py:57-61 | with no day filter (None or 0) nothing is dropped; with one, a row is kept exactly when it is dated at or after the latest date minus the days; a positive window keeps the latest row; a negative window keeps nothing |
| Aggregator.PreparedGroup | graph.py:53-61 | the rows that reach the metric are no more than the table's rows, all belong to the exercise, and all have both Weight and Reps |
| Aggregator.ExerciseSeries | graph.py:63-68 | an exercise's series has strictly ascending dates, so one point per date |
| Aggregator.ExerciseSeriesDates | graph.py:53-68 | an exercise's series has every date of its prepared rows once, in ascending order, and no other date |
| Aggregator.DropMissingNoOpOnCleanTable | graph.py:55 | on a table whose Weight and Reps are all present, `dropna` removes nothing |
| Aggregator.PlottableExactly | graph.py:55-75 | a kept group is empty exactly when none of its rows has both Weight and Reps, or when the day window is negative |
| Aggregator.GroupMaxMetric | graph.py:53-68 | one pass of the loop yields the prepared group and its per-date maximum series |
| Aggregator.MetricOverTime | graph.py:34-75 | it succeeds exactly when no kept group is empty; on success its keys are the kept exercises and each value is that exercise's series; otherwise it fails with `EmptyGroup`, as `iloc[0]` raises |
| Frequency.WeekEnd | graph.py:92 | the Sunday that closes a day's week is that day or one of the six days after it |
| Frequency.SundayEndsItsWeek | graph.py:92 | a Sunday is the end of its own week |
| Frequency.WeekIndexMonotone | graph.py:96 | a later day never falls in an earlier week |
| Frequency.WeekIndexShift | graph.py:89 | moving a day by k weeks moves its week by k |
| Frequency.Window | graph.py:88-90 | the window never adds rows, and every row in it is dated between the latest date minus `last_x_weeks` weeks and the latest date |
| Frequency.WindowStart | graph.py:88-90 | a row is in the window exactly when it is a row of the table dated no earlier than `last_x_weeks` weeks before the latest date |
| Frequency.WindowSound | graph.py:88-90 | a row is in the window exactly when it is a row of the table dated between the latest date minus `last_x_weeks` weeks and the latest date, both included |
| Frequency.NamesInWeek | graph.py:92-93 | a week has no more distinct workout names than there are rows |
| Frequency.WeeksFrom | graph.py:92-96 | consecutive week counts are labelled by consecutive Sundays, strictly ascending |
| Frequency.WorkoutsPerWeek | graph.py:92-96 | every reported week ends on a Sunday and the weeks are strictly ascending |
| Frequency.WeekSpan | graph.py:88-96 | when some week is reported the window is non-empty; week k ends on the Sunday k weeks after the one closing the earliest window row's week, and the last reported week is the one holding the latest window row |
| Frequency.EveryWindowRowCounted | graph.py:92-93 | every row of the window falls in a reported week, and its workout name is among that week's distinct names |
| Frequency.WeekCountIsDistinctNames | graph.py:93 | a week's count is its number of distinct workout names, and it is positive exactly when some row of the window falls in that week |
| Frequency.WeekCountBound | graph.py:88-96 | at most `last_x_weeks + 1` weeks are reported; a negative `last_x_weeks` gives none |
| Frequency.WindowCanTouchExtraWeek | graph.py:89-92 | a one-week window over two consecutive Mondays reports two weeks, labelled by the Sundays after them, so the bound is reached and the last label lies after the latest date |

## Left out

- Reading the CSV and the seven-column projection (line 11). The model starts from parsed rows.
- Parsing dates (line 22). Dates are already day numbers. In the source, duplicates are dropped before parsing, so two spellings of the same date are distinct rows there; the model cannot tell them apart.
- The in-place `fillna` on a column (lines 14-16). The model assumes it takes effect on the table, as it does in pandas without copy-on-write.
- Loader.Dedup: its contract does not say which copy survives or in what order. The survivors are equal rows, and the sort that follows reorders them.
- Loader.WorkoutTable.SortByDate: it promises no particular order among rows with the same date. The source's sort kind is not stable.
- The figures: `figure`, `plot`, `bar`, titles, labels, `date2num` and the `polyfit` trend line (lines 70-81 and 98-104). They produce no value.
- The order in which exercises are plotted. The result is a map keyed by exercise name.
- Rows whose Exercise Name or Workout Name is missing. `groupby` and `nunique` drop those, and the model's names are always present.
- Metrics.Apply: `metric_func` accepts any callable on a group; the model admits only the four `calc_*` functions of the source (the `Metric` datatype), since the only calls in the file, in the `__main__` block (lines 128-131), pass one of those four.
- Floating-point rounding. Weights, reps and the 0.0333 factor are exact reals.
- The range and resolution of pandas timestamps, and non-integer `last_x_days` and `last_x_weeks`.
- The `__main__` block (lines 124-135). It only wires a file name to the functions above.
