# Interconnector trading and BMU accuracy dashboards: a verified model of the table-processing core

Two Streamlit dashboards share one structure: UI code built on a small table-processing core. This project models that core in Dafny and proves properties of it. Tables are sequences of typed row records, and nullable cells are `Option` values. Measures are exact `real`s.

* **Interconnector trading** (`presentation/reference.py`):
  * multi-source ingestion: a source that cannot be read, or that lacks a required column, is skipped; the survivors are concatenated in input order; rows with a null key are dropped; calendar columns are derived from the already-parsed timestamp;
  * the interconnector group mapping;
  * the conjunctive, order-preserving `apply_filters`;
  * the five threshold KPIs of `get_measures`, which use two counting rules: plain row counts and distinct counts;
  * daily and monthly coverage;
  * the 50 MW utilisation buckets.
* **BMU accuracy** (`presentation/pn_accuracy_dashboard.py`):
  * `load_accuracy_data`: column names are stripped; whitelisted columns are coerced to numbers (a failed cell becomes null); BMU and fuel are cast to text; grain and year tags are added; single-digit months are padded before the period is parsed;
  * the per-BMU 90th percentile of the monthly error;
  * the left join of that percentile onto the annual table;
  * the `NeedsAttention` rule;
  * the global filters, including their asymmetric handling of empty selections;
  * the fleet and per-fuel statistics;
  * the per-fuel attention count;
  * `classify_band` and the band composition counts.

Modules:

| module | file | role |
|---|---|---|
| `Nullable` | nullable.dfy | nullable cells; a comparison with a null cell is false |
| `Text` | text.dfy | `str.strip`, ASCII `upper`, substring test, decimal digits, `str(int)`, numeric coercion of a text cell |
| `Calendar` | calendar.dfy | dates, English month names, the "%Y-%m" period format and parser, single-digit month padding |
| `Tables` | tables.dfy | boolean-mask selection (`Where`), order-preserving subsequences, distinct keys (`nunique`), group sizes, sums and means |
| `Stats` | stats.dfy | null dropping, sorting, numpy's linear-interpolation percentile, median, maximum and their null-skipping forms |
| `Trading` | trading.dfy | the trading dashboard's core |
| `AccuracyLoad` | accuracy_load.dfy | `load_accuracy_data` |
| `AccuracyReport` | accuracy_report.dfy | P90, merge, attention, filters, aggregates, bands |

The source's loops are `while` loops in methods, and each method is proved equal to a specification function:

* `LoadAndTransformData` loops over the sources.
* `LoadAnnual` and `LoadMonthly` loop over the files.
* `CoerceNumericColumns` loops over the whitelist.
* `ApplyFilters` and `ApplyGlobalFilters` narrow a copy step by step.
* `ScoreAnnual` adds the merged columns.

The properties are proved as lemmas about those functions.

## Model

| member | source | states |
|---|---|---|
| Trading.LoadAndTransformData | presentation/reference.py:31-80 | the loop that skips unreadable or incomplete sources, followed by concat, dropna and the column derivation, yields exactly `Facts(sources)` |
| Trading.ConcatenatedLength | presentation/reference.py:43-57 | the concatenation has as many rows as the surviving sources together |
| Trading.ConcatenatedAppend | presentation/reference.py:35-57 | concatenating two runs of sources concatenates their tables, in order |
| Trading.FactsAppend | presentation/reference.py:35-63 | loading two runs of sources gives the first run's rows followed by the second's |
| Trading.FactsOfOne | presentation/reference.py:43-49 | one source contributes its complete rows when it has every required column, and nothing otherwise |
| Trading.NoSurvivorNoRows | presentation/reference.py:54-55 | when no source survives, the result is the empty table |
| Trading.FactsRows | presentation/reference.py:57-72 | no more rows than the sources held; every row's derived columns agree with its timestamp; every complete row is loaded and nothing else is |
| Trading.Derive | presentation/reference.py:66-72 | the derived Date, Hour, Year, Month, MonthName, YearMonth and group agree with the row's timestamp and name |
| Trading.DeriveAll | presentation/reference.py:66-78 | column derivation keeps the row count and derives each row from its own raw row |
| Trading.MapGroup | presentation/reference.py:74-78 | the group is "IFA" exactly when the upper-cased name contains "IFA", and the name itself otherwise |
| Trading.MapGroupIdempotent | presentation/reference.py:74-78 | mapping a name to its group twice is the same as mapping it once |
| Trading.MapGroupExamples | presentation/reference.py:74-78 | "ifa2" maps to "IFA"; "NSL" is left unchanged |
| Trading.ApplyFilters | presentation/reference.py:278-299 | the step-by-step narrowing equals the single conjunctive filter `FilterRows` |
| Trading.FilterRowsSubsequence | presentation/reference.py:278-299 | the filtered table is an order-preserving subsequence of its input |
| Trading.FilterRowsIdempotent | presentation/reference.py:278-299 | filtering twice with the same arguments gives the same table as filtering once |
| Trading.EmptySelectionNoRows | presentation/reference.py:286-287 | an empty group or interconnector selection yields no rows |
| Trading.PermissiveFilterKeepsAll | presentation/reference.py:282-297 | without a two-element date range, with partial hours included, in a mode other than Import/Export, and with every group and interconnector selected, every row is kept |
| Trading.GetMeasures | presentation/reference.py:313-324 | the interconnector-hours are the number of rows above the threshold; the network hours and the active days are the numbers of distinct timestamps and dates among those rows, never more than the interconnector-hours; the energy is their MW sum and the mean power is that sum per interconnector-hour, above the threshold; with no qualifying row both are 0 |
| Trading.MeasuresCounts | presentation/reference.py:314-320 | the rows above the threshold, their distinct timestamps and their distinct dates are those of the table's positions whose MW exceeds the threshold |
| Trading.OneHourTwoInterconnectors | presentation/reference.py:317-320 | two interconnectors above the threshold in the same hour count as two interconnector-hours, one network hour and one day |
| Trading.MeasuresOfConcatenation | presentation/reference.py:313-324 | row counts and energies add over a concatenation; the distinct counts are subadditive |
| Trading.DaysAtMostNetworkHours | presentation/reference.py:319-320 | on rows whose date is their timestamp's date, the active days are at most the distinct network hours |
| Trading.HoursOn | presentation/reference.py:409 | a day's active hours are the distinct hours of the rows on that date: at most 24, at most its row count, and at least 1 for a date that occurs |
| Trading.DailyCoverage | presentation/reference.py:409 | one entry per date that occurs, with between 1 and 24 distinct hours |
| Trading.DailyHours | presentation/reference.py:409 | one bar per date on which some row is above the threshold, each with between 1 and 24 hours |
| Trading.DailyHoursAt | presentation/reference.py:409 | a date's bar is the number of distinct hours among the rows of that date above the threshold |
| Trading.MonthDailyAgrees | presentation/reference.py:507-510 | on a table whose month names agree with its dates, the chosen month's daily breakdown lists exactly that month's days of the full-year chart, with the same hours and capacity |
| Trading.MonthlyBreakdown | presentation/reference.py:468-471 | one entry per (month, month name) that occurs above the threshold; its hour count is a plain row count of at least 1 |
| Trading.MonthlyBreakdownAt | presentation/reference.py:468-471 | a month's hour count is the number of rows of that month above the threshold, a plain row count |
| Trading.DailyAtMostMonthly | presentation/reference.py:409 | on a loaded table, a day's distinct hours never exceed the row count of its month |
| Trading.CountingRulesDiffer | presentation/reference.py:468-471 | two interconnectors above the threshold in the same hour give one active hour for the day and two hours for the month |
| Trading.MwBucket | presentation/reference.py:390-394 | a value has a bucket exactly when it is in [0, 2000], and that bucket contains it |
| Trading.BucketExactlyOne | presentation/reference.py:390-394 | a value in [0, 2000] lies in exactly the bucket `pd.cut` assigns: (50k, 50k+50], or [0, 50] for the first |
| Trading.AllBuckets | presentation/reference.py:390-391 | there are 40 buckets, each with its label and its row count |
| Trading.UtilizationTable | presentation/reference.py:394-396 | every listed bucket holds a row and carries its label and its true row count; every bucket that holds a row is listed; the buckets appear once each, in ascending order |
| Trading.OccupiedRows | presentation/reference.py:394-396 | every row kept after dropping empty buckets is a well-formed bucket row with a positive count |
| Trading.OccupiedListed | presentation/reference.py:394-396 | every bucket that holds an hour keeps its row |
| Trading.OccupiedOrdered | presentation/reference.py:394-396 | the kept rows are in increasing bucket order |
| Trading.BucketLabelsDistinct | presentation/reference.py:390-391 | different buckets have different labels |
| Trading.FirstBucketLabel | presentation/reference.py:390-391 | the first label is "0 to 50 MW" |
| Trading.LastBucketLabel | presentation/reference.py:390-391 | the last label is "1950 to 2000 MW" |
| Trading.LabelOfEdges | presentation/reference.py:390-391 | a label is the lower edge's digits, " to ", the upper edge's digits and " MW" |
| Trading.BucketCountsCoverRange | presentation/reference.py:394-396 | the bucket counts add up to the number of rows between 0 and 2000 MW |
| Text.Strip | presentation/pn_accuracy_dashboard.py:111 | the result is a slice of the input with only whitespace removed on either side, and it starts and ends with a non-space character |
| Text.StripIdempotent | presentation/pn_accuracy_dashboard.py:159 | stripping a stripped column name changes nothing |
| Text.ParseNatToString | presentation/pn_accuracy_dashboard.py:138-140 | a cell holding the decimal text of an integer, with or without a minus sign, coerces to that number |
| Text.NonNumericIsNull | presentation/pn_accuracy_dashboard.py:138-140 | a cell containing a character that cannot occur in a number coerces to null |
| Text.ParseDecimalExamples | presentation/pn_accuracy_dashboard.py:138-140 | "12.5" coerces to 12.5, "-3" to -3 and "n/a" to null |
| AccuracyLoad.ReadFrame | presentation/pn_accuracy_dashboard.py:109-111 | one row per data row; each column name is the stripped header; a short row is padded with empty cells |
| AccuracyLoad.ToNumber | presentation/pn_accuracy_dashboard.py:140 | a coerced cell is numeric; a cell already numeric is unchanged; a text cell becomes the number it spells, or null |
| AccuracyLoad.Coerced | presentation/pn_accuracy_dashboard.py:138-140 | coercion keeps the columns and the row count, and converts exactly the cells of the coerced columns |
| AccuracyLoad.CoerceNumericColumns | presentation/pn_accuracy_dashboard.py:138-140 | the loop over the whitelist coerces exactly the whitelisted columns the frame has |
| AccuracyLoad.CoercedUnion | presentation/pn_accuracy_dashboard.py:138-140 | coercing two column sets one after the other is coercing their union |
| AccuracyLoad.CoercedAbsent | presentation/pn_accuracy_dashboard.py:139 | a whitelisted column the frame lacks is ignored |
| AccuracyLoad.CoercedIdempotent | presentation/pn_accuracy_dashboard.py:138-140 | coercing twice is coercing once |
| AccuracyLoad.CoercedRectangular | presentation/pn_accuracy_dashboard.py:138-140 | coercion keeps every row as wide as the header |
| AccuracyLoad.NonNumericCellIsNull | presentation/pn_accuracy_dashboard.py:140 | a non-numeric text cell of a coerced column becomes null, and its row is kept |
| AccuracyLoad.ColumnIndex | presentation/pn_accuracy_dashboard.py:142-143 | the position of the first column with the name, or the column count when no column has it |
| AccuracyLoad.Get | presentation/pn_accuracy_dashboard.py:142-143 | a column lookup succeeds exactly when the frame has a column of that name, and then returns the row's value in the first such column (an empty field past a short row's end) |
| AccuracyLoad.IdentityColumnsUncoerced | presentation/pn_accuracy_dashboard.py:142-197 | the identity and period columns are in neither whitelist, so coercion leaves them as read |
| AccuracyLoad.AnnualRowOf | presentation/pn_accuracy_dashboard.py:142-145 | the BMU and fuel are the text of the row's `nationalGridBmUnit` and `FUEL_I` values; the error is the numeric `A_ABS_NetError%` value, or null without that column; year 2025, grain "annual" |
| AccuracyLoad.AnnualRows | presentation/pn_accuracy_dashboard.py:142-145 | a frame without `nationalGridBmUnit` or `FUEL_I` fails (the KeyError); otherwise every row is kept, in order, as its own `AnnualRowOf`, tagged 2025, "annual" |
| AccuracyLoad.MonthlyRowOf | presentation/pn_accuracy_dashboard.py:163-172 | the BMU, fuel and period text are the text of the row's values; the error is the numeric `M_ABS_NetError%` value; the period text is padded and then parsed; an unparsable period nulls Year, Month and MonthName; a parsed one fills them from the period |
| AccuracyLoad.MonthlyRows | presentation/pn_accuracy_dashboard.py:163-198 | a frame without an identity or period column fails; otherwise every row is kept, in order, as its own `MonthlyRowOf`, tagged "monthly" |
| AccuracyLoad.AnnualTableRows | presentation/pn_accuracy_dashboard.py:149-151 | the annual table has as many rows as the annual files together, all tagged 2025, "annual" |
| AccuracyLoad.MonthlyTableRows | presentation/pn_accuracy_dashboard.py:202-204 | the monthly table has as many rows as the monthly files together, including rows whose period does not parse |
| AccuracyLoad.AnnualTableFails | presentation/pn_accuracy_dashboard.py:142-143 | one annual file without an identity column makes the whole load fail |
| AccuracyLoad.MonthlyTableFails | presentation/pn_accuracy_dashboard.py:163-197 | one monthly file without an identity or period column makes the whole load fail |
| AccuracyLoad.LoadAnnual | presentation/pn_accuracy_dashboard.py:107-151 | the annual loop yields exactly the concatenated annual table, or fails as it does |
| AccuracyLoad.LoadMonthly | presentation/pn_accuracy_dashboard.py:156-204 | the monthly loop yields exactly the concatenated monthly table, or fails as it does |
| AccuracyLoad.LoadAccuracyData | presentation/pn_accuracy_dashboard.py:95-206 | both tables, or failure when either loop fails |
| AccuracyLoad.SingleDigitMonthRow | presentation/pn_accuracy_dashboard.py:163-172 | a row whose period reads "2025-1" is dated January 2025 |
| AccuracyLoad.UnparsablePeriodRow | presentation/pn_accuracy_dashboard.py:163-172 | an empty period reads "nan", does not parse, and leaves MonthName null |
| Calendar.FormatYearMonth | presentation/reference.py:70 | a seven-character "YYYY-MM" text whose digits spell the year and the month |
| Calendar.ParseYearMonth | presentation/pn_accuracy_dashboard.py:167-169 | a parsed period is a representable month, and formatting it gives back the text it was parsed from |
| Calendar.ParseFormatYearMonth | presentation/pn_accuracy_dashboard.py:167-169 | every representable month's "%Y-%m" text parses back to that month |
| Calendar.MonthNamesDistinct | presentation/pn_accuracy_dashboard.py:172 | two months have the same English name exactly when they are the same month |
| Calendar.PadMonth | presentation/pn_accuracy_dashboard.py:164-166 | a text not ending in a dash and one digit is unchanged; otherwise a "0" is inserted before a digit; the result never ends in a dash and one digit |
| Calendar.PadMonthIdempotent | presentation/pn_accuracy_dashboard.py:164-166 | padding a padded period changes nothing |
| Calendar.PadThenParse | presentation/pn_accuracy_dashboard.py:164-169 | a single-digit month "YYYY-d" is padded to "YYYY-0d" and then parses to that month |
| Calendar.PadMonthExamples | presentation/pn_accuracy_dashboard.py:164-166 | "2025-1" becomes "2025-01"; "2025-12" is unchanged |
| Calendar.PadMonthParseExample | presentation/pn_accuracy_dashboard.py:164-169 | the padded "2025-1" parses to January 2025 |
| Stats.Present | presentation/pn_accuracy_dashboard.py:270 | dropping nulls never adds values |
| Stats.PresentMembers | presentation/pn_accuracy_dashboard.py:270 | the non-null values are exactly the values of the non-null cells |
| Stats.PresentEmpty | presentation/pn_accuracy_dashboard.py:270 | no value is left exactly when every cell is null |
| Stats.PresentPermutation | presentation/pn_accuracy_dashboard.py:270 | reordering the rows reorders the non-null values and changes nothing else |
| Stats.Sort | presentation/pn_accuracy_dashboard.py:270 | the sorted column is ascending and a permutation of the input |
| Stats.SortedUnique | presentation/pn_accuracy_dashboard.py:270 | two ascending arrangements of the same values are equal |
| Stats.SortPermutation | presentation/pn_accuracy_dashboard.py:270 | sorting does not depend on the input order |
| Stats.SortEnds | presentation/pn_accuracy_dashboard.py:331-332 | the sorted column's ends are the column's minimum and maximum |
| Stats.MinOf | presentation/pn_accuracy_dashboard.py:331 | the least value of the column, taken from it |
| Stats.MaxOf | presentation/pn_accuracy_dashboard.py:331 | the largest value of the column, taken from it |
| Stats.Position | presentation/pn_accuracy_dashboard.py:270 | the percentile's fractional position lies within the column |
| Stats.PercentileOfSorted | presentation/pn_accuracy_dashboard.py:270 | the interpolated value lies between the smallest and largest values |
| Stats.Percentile | presentation/pn_accuracy_dashboard.py:270 | the linear percentile lies between the column's minimum and maximum |
| Stats.PercentilePermutation | presentation/pn_accuracy_dashboard.py:270 | the percentile does not depend on row order |
| Stats.Median | presentation/pn_accuracy_dashboard.py:330 | the median lies between the column's minimum and maximum |
| Stats.HalfwayPosition | presentation/pn_accuracy_dashboard.py:330 | the 50th-percentile position is the middle index, or halfway between the two middle indices |
| Stats.MiddleOfSorted | presentation/pn_accuracy_dashboard.py:330 | for sorted values, the 50th percentile is the middle value, or the mean of the two middle values |
| Stats.MedianIsFiftiethPercentile | presentation/pn_accuracy_dashboard.py:330 | the pandas median equals numpy's 50th percentile |
| Stats.NanPercentile | presentation/pn_accuracy_dashboard.py:270-272 | null exactly for a column without values; otherwise between its minimum and maximum |
| Stats.NanMedian | presentation/pn_accuracy_dashboard.py:330 | null exactly for a column without values; otherwise between its minimum and maximum |
| Stats.NanMax | presentation/pn_accuracy_dashboard.py:332 | null exactly for a column without values; otherwise the largest of them |
| Stats.NinetiethPercentileExample | presentation/pn_accuracy_dashboard.py:270 | the 90th percentile of 10, 20, 30, 40, 50 is 46 |
| Tables.Where | presentation/reference.py:285-297 | a mask keeps only rows that pass it, and keeps every row that passes |
| Tables.WhereCount | presentation/reference.py:316 | a selection has one row per position whose row passes the mask |
| Tables.WhereKeys | presentation/reference.py:319-320 | the distinct keys of a selection are the keys at the positions whose row passes the mask |
| Tables.WhereIncreasing | presentation/reference.py:396 | a selection from rows in ascending key order is in ascending key order |
| Tables.WhereMember | presentation/pn_accuracy_dashboard.py:307-313 | a row is selected exactly when it is an input row that passes the mask |
| Tables.WhereIsSubsequence | presentation/pn_accuracy_dashboard.py:307-313 | a mask selection is an order-preserving subsequence of its input |
| Tables.WhereWhere | presentation/reference.py:282-297 | two successive masks select what their conjunction selects |
| Tables.WhereIdempotent | presentation/reference.py:278-299 | applying a mask twice is applying it once |
| Tables.WherePermutation | presentation/pn_accuracy_dashboard.py:267 | reordering the rows reorders the selection |
| Tables.DistinctKeys | presentation/reference.py:319-320 | the distinct keys are exactly the keys of the rows, and there are at most as many as rows |
| Tables.DistinctKeysAppend | presentation/reference.py:319-320 | the distinct keys of a concatenation are the union of both sides' keys |
| Tables.DistinctKeysPermutation | presentation/pn_accuracy_dashboard.py:267 | the distinct keys do not depend on row order |
| Tables.MeanAbove | presentation/reference.py:323 | the mean of values all above a threshold is above the threshold |
| Tables.SumAppend | presentation/reference.py:322 | the sum over a concatenation is the sum of the parts |
| Tables.WhereMonotone | presentation/reference.py:409 | a narrower mask selects no more rows |
| Tables.PartitionCount | presentation/pn_accuracy_dashboard.py:456-459 | the group sizes over all keys below a bound add up to the rows with such keys |
| Tables.CountKeyPositive | presentation/pn_accuracy_dashboard.py:456-459 | a group is non-empty exactly when some row has its key |
| AccuracyReport.BmuP90 | presentation/pn_accuracy_dashboard.py:265-277 | a BMU's P90 is null exactly when it has no non-null monthly error; otherwise it lies between their minimum and maximum |
| AccuracyReport.MonthlyP90 | presentation/pn_accuracy_dashboard.py:265-277 | one P90 entry for each BMU of the monthly table |
| AccuracyReport.BmuP90Null | presentation/pn_accuracy_dashboard.py:270-272 | the P90 is null exactly when every monthly error of the BMU is null |
| AccuracyReport.BmuP90Permutation | presentation/pn_accuracy_dashboard.py:265-277 | a BMU's P90 does not depend on the order of the monthly rows |
| AccuracyReport.MonthlyP90Permutation | presentation/pn_accuracy_dashboard.py:265-277 | the whole P90 table does not depend on the order of the monthly rows |
| AccuracyReport.MonthlyP90Example | presentation/pn_accuracy_dashboard.py:265-277 | the P90 of the errors 10, 20, 30, 40, 50 and one null is 46 |
| AccuracyReport.Merge | presentation/pn_accuracy_dashboard.py:280 | the left join keeps every annual row, in order; a BMU without monthly data gets a null P90 |
| AccuracyReport.MergeCarriesBmuP90 | presentation/pn_accuracy_dashboard.py:265-280 | each merged row carries its own BMU's P90 |
| AccuracyReport.NeedsAttentionExamples | presentation/pn_accuracy_dashboard.py:286-288 | (24, 26) is flagged, (24, null) is not, (25, null) is, and (null, null) is not |
| AccuracyReport.ScoreAnnual | presentation/pn_accuracy_dashboard.py:280-288 | every annual row, in order, gains its BMU's P90, its flag value and the attention rule |
| AccuracyReport.ApplyGlobalFilters | presentation/pn_accuracy_dashboard.py:305-313 | the step-by-step narrowing equals the conjunctive global filter |
| AccuracyReport.EmptyFuelSelection | presentation/pn_accuracy_dashboard.py:307 | an empty fuel selection gives no rows |
| AccuracyReport.EmptyBmuSelection | presentation/pn_accuracy_dashboard.py:309-310 | an empty BMU selection filters like selecting every BMU |
| AccuracyReport.GlobalFilterRows | presentation/pn_accuracy_dashboard.py:305-313 | the result is an order-preserving subsequence; every kept row passes every active filter; every row that passes is kept |
| AccuracyReport.Summarize | presentation/pn_accuracy_dashboard.py:330-333 | the median, P90 and max are null exactly for a group without values; otherwise median and P90 lie between the minimum and maximum and max is the maximum; the distinct count is at most the group size |
| AccuracyReport.FuelAggregates | presentation/pn_accuracy_dashboard.py:350-360 | one entry per fuel present, equal to the statistics of that fuel's rows, with a distinct BMU count between 1 and the group size |
| AccuracyReport.FuelStatsWithinGroup | presentation/pn_accuracy_dashboard.py:350-360 | for every fuel, its median and P90 lie between the least and the largest annual error of its rows, its max is the largest, its statistics are null exactly when it has no error value, and its count is its distinct BMUs |
| AccuracyReport.SingleFuelFleet | presentation/pn_accuracy_dashboard.py:330-360 | for a single-fuel table, that fuel's aggregate equals the fleet statistics |
| AccuracyReport.FuelAttentionCount | presentation/pn_accuracy_dashboard.py:617-620 | the attention count is at most the fuel's distinct BMU count |
| AccuracyReport.FuelAttentionMatchesFlag | presentation/pn_accuracy_dashboard.py:617-620 | with the P90 column, the count is the distinct BMUs flagged by the attention rule |
| AccuracyReport.FuelAttentionWithoutP90 | presentation/pn_accuracy_dashboard.py:617-620 | without the P90 column, only the annual error decides, because the default 0 is never at least 25 |
| AccuracyReport.ClassifyBand | presentation/pn_accuracy_dashboard.py:438-449 | null is "Unknown"; otherwise the value lands in exactly one of the five half-open bands |
| AccuracyReport.BandLabelsDistinct | presentation/pn_accuracy_dashboard.py:438-449 | the six labels are pairwise distinct |
| AccuracyReport.ClassifyBandExamples | presentation/pn_accuracy_dashboard.py:438-449 | 3.9999 and 2.0 are in "2–4%"; 4.0 is in "4–10%"; 10.0 is in ">10%"; null is "Unknown" |
| AccuracyReport.BandKey | presentation/pn_accuracy_dashboard.py:452 | a row's band position names the label its annual error is classified into |
| AccuracyReport.BandCounts | presentation/pn_accuracy_dashboard.py:456-461 | one count per band that occurs, equal to its number of rows |
| AccuracyReport.BandCountsCoverRows | presentation/pn_accuracy_dashboard.py:452-461 | the band counts add up to the number of rows |
| AccuracyReport.BandCountsPresent | presentation/pn_accuracy_dashboard.py:456-461 | a band appears exactly when some row is classified into it, and its count is that band's row count |

## Left out

- The Streamlit UI is left out: page set-up, widgets, tabs, metrics, messages and `st.stop`. It only displays results.
- All Plotly charts and the light-theme helpers are left out. They are rendering sinks.
- CSV reading and writing, downloads, and the export/re-import round trip are left out. Sources are already-read values: a trading source is either unreadable or a column set with typed rows; an accuracy file is a header with rows of text or empty cells.
- `pd.read_csv` type inference is not modelled. Every accuracy cell is text until it is coerced.
- Extra fields on an over-long CSV row are dropped. `pd.read_csv` would instead shift them into an index or raise an error.
- Numeric coercion accepts only plain decimals with an optional sign. Exponents, "inf", "nan" text and surrounding whitespace are not modelled.
- Timestamp parsing of arbitrary text with UTC conversion is not modelled. A trading timestamp arrives as an already-parsed date and hour, or as null (NaT).
- Trading.FactsAppend: it holds only because timestamps are parsed row by row. reference.py:60 parses the concatenated column in one `pd.to_datetime` call, and pandas 2 infers one format for the whole column from its first value. A source whose timestamps use another format can then get NaT and lose its rows at line 63, so one source's rows can depend on another's. The same caveat applies to `FactsOfOne`.
- Month names come from a fixed English table. Locale-dependent names are not modelled.
- `st.cache_data` is not modelled. The loaders are pure functions, so caching cannot be observed.
- File-system handling is left out: `os.makedirs`, local file lists, `save_to_outputs` and the chart image export.
- Tie-breaking in `idxmax` and `mode()` (the peak day and best month) is not modelled. It is defined by the library.
- Floating point is not modelled. Measures are exact reals, and numpy's percentile is real-valued linear interpolation.
- `upper()` is modelled for ASCII letters only. Other characters are unchanged.
- Calendar.PadMonth: the digit of the pattern is an ASCII digit. Python's `\d` also matches other Unicode decimal digits.
- The sort order of the `agg` and `band_counts` tables is not modelled. They are maps keyed by fuel or band.
- The monthly breakdown of reference.py groups by month number and name. Two years' rows with the same month fall into one group, as in the source.
- Duplicate column names after stripping resolve to the first such column. Merge suffixes for clashing columns are not modelled.
- A missing `A_ABS_NetError%` or `M_ABS_NetError%` column reads as null. In the source it raises a KeyError.
- An empty result is one value, whether or not the source's empty DataFrame would have had columns.
- The error band is computed from the annual error when needed. It is not a stored column.
- AccuracyLoad.TextOf: a coerced numeric cell is not formatted as text. It is never applied to one, because `IdentityColumnsUncoerced` shows the identity and period columns are never coerced.
- AccuracyLoad.MonthlyRows: it reads the period after coercion, while the source reads it before. `IdentityColumnsUncoerced` shows the order does not matter.
