# Degree-day climatologies and delta bias correction, modelled in Dafny

This project models the computational core of a pipeline that turns weather-station records
into bias-corrected degree-day projections:

- **Degree-day accumulation** (`compute_dd.py`). Each day's mean temperature contributes its
  distance past a threshold, clamped at zero. The season's total is rounded half to even.
  Four wrappers fix the threshold and the direction:
  - freezing index: 32 F, counting below;
  - heating degree days: 65 F, below;
  - degree days below 0 F: 0 F, below;
  - thawing index: 32 F, above.
- **The station runner** (`run_all_dd.py`). For every `.csv` entry of the station directory it
  takes the daily mean of `tmax` and `tmin` and computes the four metrics. It also takes the
  truncated median of `num_years`. All of these are written cell by cell into a results table
  keyed by the station id (the file name up to its first `.`). A failing file is reported and
  skipped; cells it already wrote stay written.
- **The bias corrector** (`bias_correct_with_wrcc.py`). It covers these pieces:
  - the metrics table;
  - the community lookup by exact name;
  - the per-(model, scenario) historical baseline, the rounded mean of `dd` over its years;
  - the delta correction `observed + (dd - model baseline)` of every (model, scenario, year)
    leaf of every metric and station;
  - the column rename;
  - the filter that keeps stations with at least 20 median years of record.
- **The API reshaping** (`reformat_json_for_api.py`). A list of records becomes a dictionary
  keyed by `SNAP ID`, with the last record winning.

Modules and files:

| file | module | flavour |
|---|---|---|
| `wrappers.dfy` | `Wrappers` | `Option` and `Result` for values that may be missing and for raised exceptions |
| `rounding.dfy` | `Rounding` | Python's `round` (half to even) and numpy's `astype(int)` (toward zero) on exact reals |
| `compute_dd.dfy` | `DegreeDays` | the accumulation loop as a method, proved against a recursive specification function |
| `run_all_dd.dfy` | `StationClimatology` | the results table as a class with a `cells` map that the loop updates, proved against `StepFile` and `Run` |
| `bias_correct_with_wrcc.dfy` | `BiasCorrection` | one method per loop level of the averaging and of the corrector, plus the functional pieces |
| `reformat_json_for_api.dfy` | `ReformatJson` | the dictionary comprehension as a recursive function |

Numbers are exact reals. Temperatures are not floats. NaN appears in one place only: a cell of
the corrector's climatology table. pandas keeps a table rectangular, so a station row with no
value in a column that other rows have holds NaN there, and the correction carries that NaN
into every year it touches.

Python dictionaries and DataFrame rows become Dafny maps. The loops over them pick their next
key with `:|`. Contracts therefore hold for every visiting order. Where the source raises at the
first bad entry it meets, the model guarantees an error naming a genuinely bad entry.

Two behaviours of the code are easy to miss. The corrected value is neither floored at zero nor
cast to an integer (`BiasCorrection.CorrectionIsNotFloored`). A later file with the same station
id overwrites the earlier row (`StationClimatology.LaterFileOverwrites`).

## Model

| member | source | states |
|---|---|---|
| Rounding.RoundHalfEven | compute_dd.py:27 | the result is within 0.5 of the input, and on an exact tie it is the even neighbour |
| Rounding.RoundHalfEvenUnique | compute_dd.py:27 | those two properties determine the rounded value: any integer meeting them is the result |
| Rounding.RoundHalfEvenMonotone | compute_dd.py:27 | rounding preserves order |
| Rounding.TruncateToInt | run_all_dd.py:42 | the cast truncates toward zero: the floor for non-negative inputs, the ceiling for negative ones |
| DegreeDays.Contribution | compute_dd.py:19-25 | one day contributes `threshold - t` when counting below and `t - threshold` when counting above, or 0 when that is negative; never negative |
| DegreeDays.TotalDelta | compute_dd.py:17-26 | the unrounded season total is never negative |
| DegreeDays.Accumulate | compute_dd.py:27 | the reported count is a non-negative integer |
| DegreeDays.SummarizeYearDd | compute_dd.py:4-27 | the loop returns the half-to-even rounding of the sum of the clamped daily deltas, and it is non-negative |
| DegreeDays.ComputeCumulativeFreezingIndex | compute_dd.py:30-32 | freezing index = accumulation below 32 F |
| DegreeDays.ComputeCumulativeHeatingDegreeDays | compute_dd.py:35-37 | heating degree days = accumulation below 65 F |
| DegreeDays.ComputeCumulativeDegreeDaysBelow0F | compute_dd.py:40-42 | degree days below 0 F = accumulation below 0 F |
| DegreeDays.ComputeCumulativeThawingIndex | compute_dd.py:45-47 | thawing index = accumulation above 32 F |
| DegreeDays.TotalDeltaAppend | compute_dd.py:17-26 | the unrounded total over two consecutive stretches of days is the sum of their totals |
| DegreeDays.AtThresholdCountsZero | compute_dd.py:17-27 | an empty season, or one whose days all sit at the threshold, counts 0 |
| DegreeDays.BelowTotalMonotoneInThreshold | compute_dd.py:19-26 | counting below, a higher threshold never gives a smaller unrounded total |
| DegreeDays.CountBelowIndicesOrdered | compute_dd.py:30-42 | heating >= freezing index >= below-0 F, before and after rounding |
| DegreeDays.BelowMinusAbove | compute_dd.py:19-26 | the below-total minus the above-total equals days x threshold minus the sum of the temperatures |
| DegreeDays.ThreeColdDaysExample | compute_dd.py:17-27 | three days at 20 F, counted below 32 F, give 36 |
| DegreeDays.NoDaysNoDegreeDays | compute_dd.py:17-27 | a season without days accumulates 0, for any threshold and direction |
| StationClimatology.IsCsv | run_all_dd.py:11 | a name that passes the `.csv` test is at least four characters long, with a `.` where the extension starts |
| StationClimatology.CsvStationIdSkipsExtension | run_all_dd.py:11-27 | the station id of a `.csv` file (line 11) stops at or before the extension (line 27) |
| StationClimatology.StationId | run_all_dd.py:27 | the id is the prefix of the file name before its first `.` (the whole name when it has none) |
| StationClimatology.DailyMeans | run_all_dd.py:16 | one mean per row, each half of that row's `tmax + tmin` |
| StationClimatology.DailyMeanBetweenExtremes | run_all_dd.py:16 | each daily mean lies between the day's two readings |
| StationClimatology.SortAscending | run_all_dd.py:42 | the median's ordering step returns a sorted permutation of the column |
| StationClimatology.Median | run_all_dd.py:42 | the median exists exactly when the column is non-empty |
| StationClimatology.MedianWithinRange | run_all_dd.py:42 | the median lies between two values of the column |
| StationClimatology.MedianOfConstant | run_all_dd.py:42 | a constant column has that constant as its median |
| StationClimatology.MedianBetweenMiddles | run_all_dd.py:42 | the median lies between the two middle values of the sorted column (it is the middle value when the count is odd) |
| StationClimatology.MedianSplitsValues | run_all_dd.py:42 | the median splits the sorted column: the lower half, middle value included, is at most the median, and the upper half is at least it |
| StationClimatology.MedianYears | run_all_dd.py:42 | the truncated median record length exists exactly when the file has rows |
| StationClimatology.Put | run_all_dd.py:28-43 | writing a cell sets that cell, keeps the row's other cells, and leaves other stations untouched |
| StationClimatology.ResultsTable.constructor | run_all_dd.py:9 | the results table starts empty |
| StationClimatology.ResultsTable.Set | run_all_dd.py:28-43 | one `loc` assignment is one `Put` on the table's cells |
| StationClimatology.ProcessFile | run_all_dd.py:11-46 | one loop iteration leaves the table and outcome that `StepFile` specifies: skipped, read failure, median failure after four writes, or a stored row |
| StationClimatology.RunAllDd | run_all_dd.py:9-46 | the runner's table and failure reports are `Run` over the directory listing, in order |
| StationClimatology.AllColumnsOverwritten | run_all_dd.py:28-43 | writing all five columns erases whatever the row held |
| StationClimatology.FiveWritesReplaceRow | run_all_dd.py:28-43 | the five writes of one file leave exactly the five new values in the station's row |
| StationClimatology.StoredRowHoldsStationValues | run_all_dd.py:13-43 | a readable `.csv` file with rows stores its four metrics of the daily means and its truncated median record length |
| StationClimatology.StepTouchesOnlyItsStation | run_all_dd.py:27-43 | a file changes no other station's row |
| StationClimatology.MedianFailureKeepsMetrics | run_all_dd.py:28-46 | no rollback: when the median fails, the station's row is its old row (or an empty one) with the four metric cells set to 0; the median cell is unchanged |
| StationClimatology.RunAppend | run_all_dd.py:10-46 | processing a listing in two parts, the second starting from the table the first left, gives the table and reports of processing it whole |
| StationClimatology.RunKeepsOtherRows | run_all_dd.py:10-46 | a station that no readable `.csv` entry maps to keeps its row, or its absence, through the whole run |
| StationClimatology.LaterFileOverwrites | run_all_dd.py:10-43 | a readable `.csv` file with rows leaves its station's row holding its own values, whatever came before, as long as no later readable file maps to the same station |
| StationClimatology.OnlyReadableCsvFilesShapeTable | run_all_dd.py:10-46 | entries that are not `.csv`, and files that cannot be read, have no effect on the table |
| StationClimatology.FailingNames | run_all_dd.py:10-46 | the names of the entries that fail, in listing order; never more than the entries |
| StationClimatology.StepFailsIffFailsToProcess | run_all_dd.py:11-46 | an entry is reported exactly when it is a `.csv` file that cannot be read or has no rows, whatever the table held |
| StationClimatology.ReportsAreFailingNames | run_all_dd.py:10-46 | the reports are exactly the failing entries' names, in listing order |
| StationClimatology.FailingNamesAreListed | run_all_dd.py:10-46 | every failing name is the name of a listed entry that fails |
| StationClimatology.ReportsAreFailingFiles | run_all_dd.py:44-46 | the reports are exactly the failing entries' names, in listing order; at most one per entry, each naming a listed `.csv` file |
| BiasCorrection.MetricsListed | bias_correct_with_wrcc.py:6-11 | the metrics table lists each of the four metrics exactly once |
| BiasCorrection.MetricNamesDistinct | bias_correct_with_wrcc.py:6-11 | distinct metrics have distinct keys and distinct labels |
| BiasCorrection.WrccColumnIsRunnerColumn | bias_correct_with_wrcc.py:84 | the observed column the corrector reads for a metric is the column the station runner writes for it (run_all_dd.py:28-39) |
| BiasCorrection.ClimoColumn | bias_correct_with_wrcc.py:48 | the baseline column name starts with the model name and a space, and is the three parts plus two separators long |
| BiasCorrection.ClimoColumnInjective | bias_correct_with_wrcc.py:48 | with space-free model names, a baseline column name determines its model and scenario |
| BiasCorrection.FetchLatLonId | bias_correct_with_wrcc.py:24-28 | returns the coordinates and id of the first community with exactly the given name, and none when no name matches |
| BiasCorrection.SumDdRemove | bias_correct_with_wrcc.py:45-46 | the sum of `dd` does not depend on the order the years are visited |
| BiasCorrection.SumDdMonotone | bias_correct_with_wrcc.py:45-46 | over the same years, higher values never give a lower sum |
| BiasCorrection.ClimatologyMonotone | bias_correct_with_wrcc.py:48-50 | over the same years, higher values never give a lower rounded baseline |
| BiasCorrection.SumYears | bias_correct_with_wrcc.py:43-47 | the year loop returns the sum of `dd` and the number of years |
| BiasCorrection.HistoricalClimatologies | bias_correct_with_wrcc.py:41-51 | fails with a division by zero exactly when some scenario has no years; otherwise every (model, scenario) has its `"model scenario label"` column; every entry is the rounded mean of some (model, scenario); with space-free model names, each column holds its own pair's rounded mean |
| BiasCorrection.StoreKeepsProduced | bias_correct_with_wrcc.py:48-50 | storing one more baseline keeps every stored column the baseline of a visited (model, scenario) that names it |
| BiasCorrection.ProducedColumns | bias_correct_with_wrcc.py:41-51 | every stored column holds the baseline of a pair that names it; with space-free model names, each pair's column holds its own baseline |
| BiasCorrection.CellOf | bias_correct_with_wrcc.py:84-89 | a cell is a number exactly when the station row has a value in that column, and NaN otherwise |
| BiasCorrection.Offset | bias_correct_with_wrcc.py:91-93 | the corrected value is NaN exactly when either baseline is NaN; otherwise it differs from the projected value by the observed baseline minus the model baseline |
| BiasCorrection.CorrectYears | bias_correct_with_wrcc.py:90-97 | every year becomes `observed + (dd - baseline)`, NaN when either baseline is NaN, and the same years are kept |
| BiasCorrection.CorrectScenarios | bias_correct_with_wrcc.py:86-97 | fails exactly when some scenario's baseline column is missing from the whole table, naming one such column; a column the table has but this row lacks gives NaN years instead; otherwise the same shape, each leaf corrected by its own scenario's baseline cell |
| BiasCorrection.CorrectModels | bias_correct_with_wrcc.py:85-97 | fails exactly when some (model, scenario) has no baseline column in the table; otherwise the result is the full correction of the projection |
| BiasCorrection.CorrectMetric | bias_correct_with_wrcc.py:83-97 | fails exactly when some station row cannot be corrected (its row is missing, or the table lacks the observed or a model baseline column, or the row lacks the projection column), with an error naming a real miss; otherwise every row is corrected, NaN cells giving NaN leaves |
| BiasCorrection.BiasCorrectFutureProjections | bias_correct_with_wrcc.py:81-97 | fails exactly when some (metric, station) cannot be corrected; otherwise every station row holds every metric's full correction, with the projection's exact (model, scenario, year) keys |
| BiasCorrection.MissingBaselineCellGivesNaN | bias_correct_with_wrcc.py:87-95 | a station row without a value in a baseline column that the table has does not raise: every year of that (model, scenario) comes out NaN |
| BiasCorrection.ZeroOffsetIsIdentity | bias_correct_with_wrcc.py:91-93 | with equal observed and model baselines (both numbers), every corrected value equals the projected `dd` |
| BiasCorrection.CorrectionKeepsTrend | bias_correct_with_wrcc.py:91-93 | where both baselines are numbers, the difference between any two years of a (model, scenario) is unchanged by the correction |
| BiasCorrection.CorrectionIsNotFloored | bias_correct_with_wrcc.py:91-93 | corrected values may be negative: baselines 10 and 80 turn a projected 0 into -70 |
| BiasCorrection.ReplaceAll | bias_correct_with_wrcc.py:100 | `str.replace`: a string without the pattern comes back unchanged; a replacement no shorter than the pattern never shortens the string, and one of equal length keeps its length |
| BiasCorrection.ReplaceAllWithoutFirstChar | bias_correct_with_wrcc.py:100 | a string without the pattern's first character comes back unchanged |
| BiasCorrection.ReplaceAllLeading | bias_correct_with_wrcc.py:100 | a leading occurrence is replaced and the scan resumes right after it |
| BiasCorrection.Rename | bias_correct_with_wrcc.py:99-101 | the rename, for any replacement of `"biased "` (the code's `"bias_corrected"` or the intended `"bias corrected "`): a column name without `"biased "` keeps its name, and a replacement at least as long as the pattern shortens no name |
| BiasCorrection.FuturesSuffixUntouched | bias_correct_with_wrcc.py:100 | the `"<key> futures"` tail of a projection column holds no `"biased "` |
| BiasCorrection.RenamedFutureColumn | bias_correct_with_wrcc.py:99-101 | as written, `"biased <key> futures"` is renamed to `"bias_corrected<key> futures"` |
| BiasCorrection.RenamedColumnMissesWriter | bias_correct_with_wrcc.py:100 | as written, the renamed column differs from the `"bias corrected <key> futures"` column that line 158 selects |
| BiasCorrection.IntendedRenameMatchesWriter | bias_correct_with_wrcc.py:158 | replacing `"biased "` with `"bias corrected "` yields exactly the column that line 158 selects |
| BiasCorrection.OtherColumnsKeepNames | bias_correct_with_wrcc.py:99-101 | columns without a `b`, such as names, ids and coordinates, keep their names under either rename |
| BiasCorrection.KeepLongRecords | bias_correct_with_wrcc.py:109-111 | a station is kept, unchanged, exactly when it has a median record length of at least 20; exactly 20 is kept |
| BiasCorrection.KeepLongRecordsIdempotent | bias_correct_with_wrcc.py:109-111 | filtering twice is filtering once |
| BiasCorrection.EmptyStationFileIsDropped | bias_correct_with_wrcc.py:109-111 | a new station whose file had no rows gets a row without a median, and the filter drops it |
| BiasCorrection.EmptyFileAfterLongRecordIsKept | bias_correct_with_wrcc.py:109-111 | an empty file for a station an earlier file stored with at least 20 median years keeps that median (no rollback, run_all_dd.py:28-46), so the filter keeps the station, now with a zero heating climatology |
| ReformatJson.MissingKey | reformat_json_for_api.py:14 | the error names a key the record lacks; the id is checked before the field |
| ReformatJson.KeyBy | reformat_json_for_api.py:13-15 | fails exactly when some record lacks the id or the field, naming the first such record's missing key; otherwise the keys are exactly the records' ids |
| ReformatJson.ConvertToNested | reformat_json_for_api.py:13-15 | succeeds exactly when every record has `SNAP ID` and the metric's `"bias corrected <key> futures"` field |
| ReformatJson.LastRecordWins | reformat_json_for_api.py:13-15 | an id maps to the field of the last record that carries it |
| ReformatJson.AtMostOneEntryPerRecord | reformat_json_for_api.py:13-15 | the dictionary has at most as many entries as the list has records |
| ReformatJson.DistinctIdsKeepEveryRecord | reformat_json_for_api.py:13-15 | with pairwise distinct ids, the dictionary has exactly one entry per record |

## Left out

- HTTP and status handling are not modelled: `get_latlons_from_snap_api`, the request and non-200 branches of the two API readers (bias_correct_with_wrcc.py:15-21, 31-37, 52-67). The averaging loop takes the decoded response as input.
- A `None` API response reaching the corrector or the join is not modelled. Projections are always nested dictionaries.
- The `__main__` orchestration of bias_correct_with_wrcc.py is not modelled, apart from the filter predicate: the merges, `apply`, `join` and the JSON and CSV output. The same holds for the CSV reading and writing of run_all_dd.py and the file I/O of reformat_json_for_api.py.
- `config.metrics`, imported by reformat_json_for_api.py, is not part of this model. The per-metric loop at reformat_json_for_api.py:22-28 is represented by `ConvertToNested` taking a metric.
- wrcc_station_scraper.py and scrape_all_stations.py are not part of this model.
- Floating point is not modelled; values are exact reals. NaN is modelled only for the cells of the corrector's climatology table (`BiasCorrection.Float`). NaN in daily records or projections, and pandas' skipping of NaN in `mean(axis=1)` and `median()`, are not modelled.
- BiasCorrection.CorrectMetric: a station row whose projection cell is missing fails with `MissingProjection`. In the source that column exists for every row, and a missing (NaN) cell raises an `AttributeError` at `.items()` rather than a `KeyError`; the model does not distinguish the two exceptions.
- `copy.deepcopy` at bias_correct_with_wrcc.py:81, and whether nested dictionaries are shared with the input, are not modelled. The corrector builds a new structure.
- BiasCorrection.BiasCorrectFutureProjections: the result carries only the corrected projection columns, keyed by metric. The copied name, id and coordinate columns are not carried, and the rename is modelled separately on column names.
- BiasCorrection.HistoricalClimatologies: dictionary order is not modelled. When two (model, scenario) pairs share a column name, the model says the value is the baseline of one of them, not of the last one visited. On an empty scenario the error names an empty scenario, not necessarily the first one visited.
- BiasCorrection.CorrectMetric: row and dictionary order are not modelled. The error names a genuinely failing lookup, not necessarily the first one in order.
- BiasCorrection.CorrectScenarios: the error names a missing baseline, not necessarily the first in dictionary order.
- BiasCorrection.CorrectModels: the error names a missing baseline, not necessarily the first in dictionary order.
- StationClimatology.MedianYears: an empty `num_years` column is modelled as a failure at the median, after the four metric cells are written, and no median cell is stored. pandas' median of an empty column is a plain Python float NaN, which has no `astype`, so run_all_dd.py:42 raises there. A station that no earlier file stored is then dropped by the filter (`BiasCorrection.EmptyStationFileIsDropped`). A station that an earlier file stored with a long record keeps its old median and is kept with zero metric cells (`BiasCorrection.EmptyFileAfterLongRecordIsKept`).
- StationClimatology.ProcessFile: a file that lacks the `num_years` column also raises after the four writes. The model does not distinguish it. `StationFile.rows = None` stands for a file that cannot be read or lacks `tmax` or `tmin`, which raises before any write.
- StationClimatology.RunAllDd: the order of `os.listdir` is taken as given by the input sequence.
- BiasCorrection.ReplaceAll requires a non-empty pattern. Python's `str.replace` with an empty pattern inserts between characters. The rename always uses the non-empty `"biased "`.

## Findings

| source | as written | input that shows it | evidently intended | confidence | as-written member | corrected member |
|---|---|---|---|---|---|---|
| bias_correct_with_wrcc.py:100 | the rename replaces `"biased "` with `"bias_corrected"`, so `"biased heating futures"` becomes `"bias_correctedheating futures"`; line 158 then selects `"bias corrected heating futures"`, which does not exist, so the selection raises a `KeyError` | the column `"biased heating futures"` (any of the four metrics) | replace `"biased "` with `"bias corrected "`, giving the column that line 158 and reformat_json_for_api.py:14 read | not executed | BiasCorrection.RenamedColumnMissesWriter | BiasCorrection.IntendedRenameMatchesWriter |
