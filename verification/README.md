# SDG-4 inequity pipeline — a Dafny model of its data shaping and index arithmetic

The pipeline builds an education-inequity index for countries and years from
a handful of SDG-4 indicators. This project models its core in Dafny and
proves properties of the model. The core covers:

- **Source normalisers.**
  - `tidy_unesco.py` reads a raw UNESCO table in one of three layouts:
    the SDG-portal layout with `GeoAreaName`, a wide table of 4-digit year
    columns, or a flexible long table. Each is turned into rows of the
    canonical tidy schema.
  - `harmonize.py` reshapes the World Bank archive table the same way. It
    also picks which raw file of a UNESCO indicator to read.
- **Index builder** (`build_index.py`). For each indicator it keeps
  recognised countries and min-max normalises the values. The
  gender-parity indicator first gets the "goodness" transform 1 − |g − 1|.
  Then it keeps the SDG era 2015..2024, averages scores per (country,
  year, bucket), and keeps only country-years with at least two buckets.
  The index is the weighted mean of the bucket scores, with equal weights.
- **Derived tables** (`export_for_tableau.py`, `check_coverage.py`):
  - the windowed index table and the latest row per country;
  - the long indicator table;
  - per-country-year counts of observed values;
  - the coverage pivot, with one boolean per indicator, an available count,
    and sorting.

Tables are sequences of row records. A missing cell is `Option`/`Cell.Missing`.
Numbers are Dafny `real`, so floating point is abstracted, and ±inf is
treated as missing. Services the code calls out to become function
parameters:

- `Resolver` is the country-code converter;
- `Interim` is the interim parquet store, indexed by indicator id;
- `isFile` tests whether a path exists;
- `read` is the file reader.

Modules follow the program: `Wrappers`, `Seqs`, `Stats`, `Strings` and
`Paths` are general helpers. `Cells` models numeric coercion. `Frames` holds
tables, `_col` and melt. `Schema` is the tidy schema. Then come
`TidyUnesco`, `Harmonize`, `Normalize`, `BuildIndex`, `ExportTableau` and
`CheckCoverage`.

## Model

| member | source | states |
|---|---|---|
| Normalize.NormalizeSeries | pipelines/build_index.py:29-38 | the output has the input's length; when at most one distinct finite value is present every position (null ones included) is 0; otherwise a position is present exactly when its input is, and every present output lies in [0,1] |
| Normalize.NormalizeEndpoints | pipelines/build_index.py:34-38 | in the non-degenerate case the minimum maps to 0 and the maximum to 1 with `higher_is_better`, and the other way round without it |
| Normalize.NormalizeMonotone | pipelines/build_index.py:37-38 | normalisation preserves the order of values with `higher_is_better` and reverses it without |
| Normalize.NormalizeComplement | pipelines/build_index.py:38 | without `higher_is_better` every present output is 1 minus the output with it |
| Normalize.Goodness | pipelines/build_index.py:117-118 | the parity goodness is present exactly when the value is, never exceeds 1, and equals 1 exactly at parity g = 1 |
| Normalize.GoodnessSymmetric | pipelines/build_index.py:118 | goodness(g) = goodness(2 − g) |
| Normalize.GoodnessOrdersByDistance | pipelines/build_index.py:118 | a value closer to parity never has smaller goodness |
| Stats.Mean | pipelines/build_index.py:137 | the mean of a non-empty sequence lies between its minimum and maximum |
| Stats.WeightedMean | pipelines/build_index.py:153 | Σw·s / Σw with positive weights lies between the smallest and largest score |
| Stats.EqualWeightsGiveMean | pipelines/build_index.py:16 | with all weights equal the weighted mean is the plain mean |
| BuildIndex.WeightsAreEqualShares | pipelines/build_index.py:8-16 | the weight table has exactly the six distinct bucket names as keys, each weighted 1/6, and the weights sum to 1 |
| BuildIndex.JobsInLoopOrder | pipelines/build_index.py:8-15 | the loop visits one (bucket, indicator) job per bucket, in the order `BUCKETS` lists them |
| BuildIndex.PrepareIndicator | pipelines/build_index.py:107-124 | a scored row exists exactly for a recognised input row whose year and min-max score are both non-null, the score taken over the recognised rows only; it keeps that row's code, name and year, carries the job's bucket and a score in [0,1], and there are never more scored rows than input rows |
| BuildIndex.PrepareIndicatorCounts | pipelines/build_index.py:107-124 | repeats are kept: a scored row occurs in the result exactly as many times as there are recognised input rows that score to it, so the bucket mean counts each of them |
| BuildIndex.UnrecognisedRowsAreIgnored | pipelines/build_index.py:113-121 | rows with an unrecognised country do not influence the result, not even the min-max range |
| BuildIndex.FlatIndicatorScoresZero | pipelines/build_index.py:32-36 | in the degenerate case every recognised row that has a year survives with score 0, even when its value is null |
| BuildIndex.Prepare | pipelines/build_index.py:94-128 | an error exactly when no indicator table could be loaded; otherwise every row carries a known bucket and a score in [0,1] |
| BuildIndex.PrepareCollectsJobs | pipelines/build_index.py:94-130 | the concatenated frames hold exactly the rows that some (bucket, indicator) job keeps from its loaded table, and no others; each row occurs as often as the jobs' recognised rows that score to it, summed over the loaded jobs |
| BuildIndex.BucketCountIsNunique | pipelines/build_index.py:138-140 | the buckets counted for a country-year are the distinct buckets of its rows, each once |
| BuildIndex.BucketScore | pipelines/build_index.py:135-137 | a bucket score lies between the smallest and largest score of the rows in its (country, year, bucket) group |
| BuildIndex.CountryYearIndex | pipelines/build_index.py:150-156 | the index of a country-year lies between its smallest and largest bucket score |
| BuildIndex.IndexTable | pipelines/build_index.py:138-156 | a country-year gets an index exactly when it has at least two distinct buckets, and that index lies between its bucket scores |
| BuildIndex.IndexIsMeanOfBucketScores | pipelines/build_index.py:150-156 | with the equal weights the weighted average is the plain mean of the bucket scores |
| BuildIndex.IndexInUnitRange | pipelines/build_index.py:150-156 | every index value lies in [0,1] |
| BuildIndex.Aggregate | pipelines/build_index.py:130-156 | a failure is always "no coverage"; a success is non-empty, every key's year is in 2015..2024, and every index is in [0,1] |
| BuildIndex.AggregateGate | pipelines/build_index.py:132-148 | nothing is written exactly when no country-year of the 2015..2024 rows has at least two distinct buckets |
| BuildIndex.AggregateKeys | pipelines/build_index.py:132-156 | the written table holds exactly the country-years of the 2015..2024 rows that have at least two distinct buckets |
| BuildIndex.AggregateMeans | pipelines/build_index.py:135-156 | every written index is the mean of its country-year's bucket scores over the 2015..2024 rows, of which there are at least two |
| BuildIndex.BuildIndex | pipelines/build_index.py:84-156 | "no indicators" exactly when no table loads; a success is non-empty, keeps years 2015..2024 and indexes in [0,1] |
| BuildIndex.BuildIndexGate | pipelines/build_index.py:126-148 | "no coverage" exactly when some indicator table loaded but no 2015..2024 country-year of the prepared rows has two distinct buckets |
| BuildIndex.BuildIndexKeys | pipelines/build_index.py:94-156 | the index holds exactly the 2015..2024 country-years of the prepared rows with at least two distinct buckets |
| BuildIndex.BuildIndexMeans | pipelines/build_index.py:94-156 | each index is the mean of its country-year's bucket scores over the prepared 2015..2024 rows |
| Cells.ParseShowNat | pipelines/tidy_unesco.py:51 | numeric coercion reads a written natural number back as its value |
| Cells.YearLabelValue | pipelines/tidy_unesco.py:46-51 | a 4-digit year label coerces to its decimal value, below 10000 |
| Cells.ParseDigitsExponent | pipelines/tidy_unesco.py:52 | digits, an exponent mark and exponent digits read as the first digits' value times ten to the power of the second's |
| Cells.ParseDigitsNegativeExponent | pipelines/tidy_unesco.py:52 | with a minus sign after the exponent mark the value is divided by that power of ten instead |
| Cells.SurroundingSpaceIgnored | pipelines/tidy_unesco.py:52 | white space before or after a text does not change its numeric reading |
| Cells.NonNumericTextIsMissing | pipelines/tidy_unesco.py:51-52 | text holding a character no number can contain (anything but digits, ".", signs, "e"/"E" and white space) coerces to null rather than failing |
| Cells.DotsAreNotANumber | pipelines/harmonize.py:46-47 | the World Bank placeholder ".." is not a number |
| Frames.FirstColumn | pipelines/tidy_unesco.py:27-31 | `_col` returns a candidate that is a column and that no earlier candidate beats, and None exactly when no candidate is a column |
| Frames.FirstColumnOnlyCandidatesMatter | pipelines/tidy_unesco.py:27-31 | `_col` depends only on which candidates are columns |
| Frames.MeltAt | pipelines/harmonize.py:34-36 | melt row (value column j, input row i) carries row i's id cells, column j's label and its cell |
| TidyUnesco.ReadKind | pipelines/tidy_unesco.py:34-41 | a file is accepted exactly when its lower-cased suffix is .xls, .xlsx or .csv; any other suffix is refused and named |
| TidyUnesco.ReadKindIgnoresCase | pipelines/tidy_unesco.py:35 | the suffix comparison ignores ASCII case |
| TidyUnesco.ReadKindOfFile | pipelines/tidy_unesco.py:35-41 | a file named stem + extension is accepted exactly when the lower-cased extension is supported, Excel for .xlsx and CSV for .csv |
| TidyUnesco.MeltYears | pipelines/tidy_unesco.py:44-53 | id columns are exactly the non-year columns, and the long table has (year columns × rows) rows |
| TidyUnesco.MeltYearsAt | pipelines/tidy_unesco.py:48-52 | long row (j, i) carries row i's id cells, year label j coerced to a number, and that year column's cell coerced to a number |
| TidyUnesco.GeoAreaRowsAt | pipelines/tidy_unesco.py:60-91 | in the SDG-portal layout, row (j, i) takes its name from GeoAreaName, its code from the resolver (missing without one), year and value from the melt, and its unit from the Units/Unit column or else the parameter |
| TidyUnesco.WideYearsRowsAt | pipelines/tidy_unesco.py:100-129 | in the wide layout, row (j, i) takes year and value from the melt, the name from the first country column, and the code from the first code column or else the resolved name |
| TidyUnesco.RecomputedCountryFindsNothingNew | pipelines/tidy_unesco.py:106-107 | looking the country column up again in the melted table finds nothing when the first lookup found nothing |
| TidyUnesco.FlexibleRowsAt | pipelines/tidy_unesco.py:131-147 | in the fallback, each field is the first matching column's cell, with year and value coerced, and a field with no column is null in every row |
| TidyUnesco.FlexibleRows | pipelines/tidy_unesco.py:131-147 | the fallback keeps one row per input row, stamped, unless no candidate column exists at all |
| TidyUnesco.TidyFrame | pipelines/tidy_unesco.py:56-147 | the three-way dispatch fails in the fallback exactly when no candidate column exists, and in the two melting layouts exactly when the table already has a "value" or "year" column, "value" being reported first; every row is stamped with the indicator id and "UNESCO"; the melting layouts give (year columns × rows) rows and the fallback one per row |
| TidyUnesco.TidyUnescoFile | pipelines/tidy_unesco.py:56-57 | an unsupported suffix is reported as such, and every row produced is stamped |
| Harmonize.SelectApiMember | pipelines/harmonize.py:27-29 | the chosen archive member is the first name ending in .csv and starting with API_, and there is none exactly when no name qualifies |
| Harmonize.WbValue | pipelines/harmonize.py:46-47 | ".." becomes null |
| Harmonize.TidyWbFrame | pipelines/harmonize.py:33-61 | fails exactly when the table already has a "value" column (which the melt refuses first) or a country column is absent (the `Int64` cast's failure on a non-integer year label aside); otherwise one row per (input row, non-id column), each stamped with the id, the unit and "WorldBank" |
| Harmonize.TidyWbFrameAt | pipelines/harmonize.py:34-59 | row (j, i) carries Country Code and Country Name, the column label coerced as year, the cell as value with ".." null, and the fixed columns |
| Harmonize.TextLabelsGiveMissingYears | pipelines/harmonize.py:43 | a melted column whose label is not a number gives a null year |
| Harmonize.TidyWbZip | pipelines/harmonize.py:24-62 | an archive without an API_*.csv member fails; every row produced is stamped |
| Harmonize.FirstExisting | pipelines/harmonize.py:65-71 | returns an existing file among stem.xlsx, stem.xls and stem.csv, no earlier candidate exists, and None exactly when none exists |
| Harmonize.FirstExistingIsReadable | pipelines/harmonize.py:97-99 | the file chosen always has a suffix the UNESCO reader accepts |
| ExportTableau.IndicatorsMatchBuckets | pipelines/export_for_tableau.py:12-19 | every exported indicator and its bucket is one of the index builder's (bucket, indicator) jobs |
| ExportTableau.FilterCountries | pipelines/export_for_tableau.py:24-29 | keeps exactly the rows whose code resolves |
| ExportTableau.FilterCountriesKeepsOrder | pipelines/export_for_tableau.py:24-29 | the kept rows are every resolving row, in the original order |
| ExportTableau.IndexWindow | pipelines/export_for_tableau.py:38-39 | an output row exists exactly for an input row with a recognised country and a year in 2015..2024 |
| ExportTableau.LatestPerCountry | pipelines/export_for_tableau.py:56 | one row per non-null code present, taken from the input, whose year is maximal for that code |
| ExportTableau.ExportIndex | pipelines/export_for_tableau.py:32-58 | fails exactly when the index file is missing; otherwise the rows are exactly the file's recognised 2015..2024 rows in file order, and the latest table has one maximal-year row per code present |
| ExportTableau.IndicatorRows | pipelines/export_for_tableau.py:68-86 | an output row exists exactly for an input row with a recognised country and a year in 2010..2024, stamped with the indicator's id, alias and bucket |
| ExportTableau.LongRowsFromParts | pipelines/export_for_tableau.py:61-93 | the concatenated long table holds exactly the rows of the parts of the indicators whose files exist |
| ExportTableau.ExportIndicatorsLong | pipelines/export_for_tableau.py:61-97 | fails exactly when every indicator file is missing; otherwise a row is exported exactly when it is a row of the part of some indicator whose file exists, and every row is in 2010..2024 and stamped from such an indicator |
| ExportTableau.CoverageKeys | pipelines/export_for_tableau.py:104-116 | a key is counted exactly when some existing indicator file has a recognised row with a value under that key |
| ExportTableau.CountKeys | pipelines/export_for_tableau.py:113-116 | the counter holds exactly the keys seen, each with its number of occurrences |
| ExportTableau.FileKeyCount | pipelines/export_for_tableau.py:111-116 | one file adds to a key's counter exactly the number of its recognised rows with a value under that key |
| ExportTableau.CoverageCount | pipelines/export_for_tableau.py:104-116 | the number of times a key occurs among the counted keys is the per-file count of recognised rows with a value under that key, summed over the existing indicator files |
| ExportTableau.ExportCoverage | pipelines/export_for_tableau.py:100-124 | nothing is written exactly when no row is counted; otherwise the table is non-empty, has exactly the counted keys, and each count is positive and equals the number of recognised rows with a value under that key, summed over the existing indicator files |
| CheckCoverage.Gather | pipelines/check_coverage.py:14-29 | aborts exactly when no interim file exists; otherwise holds exactly the observations, with non-null keys, of the existing files |
| CheckCoverage.GroupMax | pipelines/check_coverage.py:30-32 | a (key, indicator) group exists exactly when some row has them, and its maximum is true exactly when one of its rows has a value |
| CheckCoverage.FlagIffValue | pipelines/check_coverage.py:33-38 | a pivot cell is true exactly when the key has a value for that indicator; absent pairs are False |
| CheckCoverage.PivotOneRowPerKey | pipelines/check_coverage.py:33-38 | the pivot has one row per distinct (iso3, name, year) that occurs, and no other |
| CheckCoverage.PivotFlags | pipelines/check_coverage.py:33-38 | pivot cell (key, indicator) is true exactly when some observation of that key and indicator has a value |
| CheckCoverage.AvailableCount | pipelines/check_coverage.py:39 | the available count is the number of indicators with a value for that key |
| CheckCoverage.SortReport | pipelines/check_coverage.py:40-42 | the report is a permutation of the pivot, sorted by year descending, then available count descending |
| CheckCoverage.CoverageReport | pipelines/check_coverage.py:14-42 | aborts exactly when no interim file exists; otherwise the report is sorted and each row is an observed key |
| CheckCoverage.ReportOneRowPerKey | pipelines/check_coverage.py:33-42 | the sorted report has exactly one row per observed key |
| CheckCoverage.ReportCells | pipelines/check_coverage.py:33-42 | in the sorted report each row has one flag per indicator column, the flag is true exactly when the key has a value for it, and the count is the number of such indicators |

## Left out

- File I/O, logging, directory creation and the CSV/parquet writers are left out. Reading a file is a parameter (`read`, `Interim`), and existence is a parameter (`isFile`).
- The `country_converter` lookup is a parameter (`Resolver`). The model does not know which codes it recognises, and does not model the `astype(str)` rendering of null codes before the lookup.
- Floating point is abstracted as `real`. ±inf is treated as missing, `.round(3)` in `export_for_tableau.py` is not modelled, and the `Int64` cast of years in `harmonize.py` is not modelled.
- Numeric coercion reads text as an exact decimal. Text beyond a double's range (such as "1e400") therefore reads as a large real, where pandas reports a range error and coerces the text to NaN, that is, missing. Spellings pandas reads as infinity or NaN ("inf", "nan") read as missing, which agrees with that convention.
- The unreachable code after the `return` of `normalize_series` (`build_index.py:40-81`) is not modelled.
- Order of the code and its written description:
  - normalisation runs per indicator after the country filter and before the 2015..2024 window, as the code does;
  - years outside the window therefore shape the min-max range.
- BuildIndex.BuildIndex: the index is a map from (code, name, year) to the value, so the output row order of the written table is not modelled. The builder does not round; the only rounding is in `export_for_tableau.py`. Country-years with a null code or name form no group, as in pandas `groupby`.
- TidyUnesco.MeltYears: a year column is recognised only when its label is four ASCII digits (Cells.IsYearLabel). Python's `str.isdigit` at pipelines/tidy_unesco.py:46 and :101 also accepts other Unicode digits, such as full-width, Arabic-Indic or superscript digits. For a label like that, pandas melts the column as a year column with a null year, and a table whose only year-like labels are like that takes the wide-years branch. The model keeps such a column as an identifier column, and such a table falls to the flexible branch. Which characters Unicode counts as digits is not modelled.
- TidyUnesco.ReadKind: the refusal names `LowerAscii` of the suffix, where Python reports `suffix.lower()`, which also lower-cases non-ASCII letters. Acceptance and refusal are the same, because no non-ASCII character lower-cases to any letter of "xls", "xlsx" or "csv"; only the text of the error can differ.
- TidyUnesco.MeltYears: the melt itself is total. On a table that already has a "value" or "year" column, where pandas fails, it melts that column as an ordinary identifier column. TidyUnesco.TidyFrame refuses such tables before melting, so no row of the model comes from such a melt.
- Harmonize.TidyWbFrame: the refusal of an existing "value" column follows pandas 2, where `melt` raises; earlier pandas versions only warned. The `Int64` cast of the year column (pipelines/harmonize.py:51) raises when a melted column label reads as a number that is not an integer, such as "2015.5"; the model keeps such a year as a real and returns a result there.
- TidyUnesco.TidyFrame:
  - in the fallback with no candidate column at all, the code builds a table from scalars only, which pandas refuses; the model reports `AllScalarColumns` there, following the code rather than treating that layout as non-failing;
  - the `astype(str)` rendering passed to the resolver in the two resolving layouts is not modelled.
- ExportTableau.LatestPerCountry: when two rows of a country share the maximal year, the model keeps one of them. Which one pandas' sort keeps is not modelled.
- ExportTableau.ExportCoverage: keys whose year is null are treated as equal to each other, whereas Python tuple keys holding NaN are distinct.
- CheckCoverage.SortReport: the sort is stated as sorted and a permutation. The tie order of pandas' `sort_values` is not modelled.
- CheckCoverage.PivotOneRowPerKey: pandas orders the pivot's rows and columns by label. The model keeps first-occurrence order, since the rows are re-sorted afterwards anyway.
- CheckCoverage.Gather: check_coverage.py does not filter countries, and neither does the model. Its rows with a null code, name or year form no group, as in pandas `groupby`. The "Missing" printout is not modelled.
- `app/app.py`, `ingest_worldbank.py`, `config.py` and `scratch.py` are not part of this model. They are the dashboard, the downloader, settings and a scratch file.
- The World Bank step of `harmonize.py`'s `main` and its writing of parquet files are left out. They are I/O around `tidy_wb_zip` and `tidy_unesco_file`.
