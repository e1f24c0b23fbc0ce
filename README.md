# Region data pipeline and Redfin time series, in Dafny

This project models the core of `data_analyzer`, a batch tool that joins
per-region data into one region table. Its sources are:

- a KEYS registry of regions (states, DC, Puerto Rico),
- two census tables (total population, median household income),
- a Redfin median sale price table.

For each region, the tool:

- ranks population, income and sale price in descending order,
- writes one English blurb per ranked figure,
- derives the house affordability ratio (sale price over income, rounded to a tenth),
- ranks that ratio in ascending order and writes its blurb.

A second analysis loads the Redfin table as a time series. It reports:

- the month-over-month and year-over-year growth of the latest month,
- the period covered,
- the number of regions,
- the mean, maximum and minimum of the latest prices.

The model has one module per part of the program:

- `Tables`: a table as read from a file (`Frame`) and the cells of the output table (`Value`). It also holds Python's insertion-ordered dict with positional `.values`, and the per-row loop that fills such a dict or stops at the first row that raises.
- `Common`: `Option`/`Result`, the Python exceptions by name, and the string conversions:
  - `str(n)`, `int(s)` and `float(s)`;
  - `str.replace`, for thousands separators and for the `$`/`K` price convention;
  - `int(float(...))`.
- `RegionKeys`: `process_keys_data` and `find_key_row`.
- `CensusReaders`: the population and income readers.
- `SalePrice`: the Redfin reader:
  - the shifted header;
  - the latest month that has any value;
  - each region's rightmost usable price;
  - the fixed prices of DC and Puerto Rico.
- `Ranking`: pandas `rank(method="min", na_option="keep")` followed by `get_ordinal`.
- `Affordability`: the row-wise ratio and Python's `round(x, 1)`.
- `Blurbs`: the four blurb templates and their generators.
- `Pipeline`: `process_csv_files` as a class `CombinedTable` (row count and columns) that the stages change in place, in the program's stage order. The stages are:
  1. the KEYS loop;
  2. the data-file loop with its per-file exception handler;
  3. the rank stage;
  4. the blurb stage, which has no handler;
  5. the handled final block: ratio, its rank and its blurb.

  The two loading loops are specified by folds over the file list: `KeyColumnAfter` for the region column, and `ColumnAfter` and `DateAfter` over the readers' outputs (`ReadOf`) for the reader columns and `redfin_date`. In each, the last output that fits the table wins.
- `TimeSeries`: `load_redfin_data`, `calculate_growth_rates`, the figures of `display_summary_stats`, and the result rows of `analyze_time_series`.

Reading a file, listing a directory and saving a table are I/O. They become inputs:
- each input file is its name together with what `read_csv` returned (a table or an exception);
- the output of the pipeline is the final table and how the run ended.

Where the repository's written description and its code disagree, the model follows the code:
- **A region whose census value cannot be read.**
  - Described behaviour: the region is recorded as missing.
  - Code, and the model: the exception aborts that reader for the whole file, and the file is skipped by the handler at `data_processor.py:155-157`.
- **DC and Puerto Rico in the region list.**
  - Described behaviour: they are added to the region list explicitly.
  - Code, and the model: `process_keys_data` keeps only `region_type == "state"` rows, so they appear only if the KEYS file lists them that way.
- **DC and Puerto Rico sale prices.**
  - Described behaviour: they are fixed whatever the input.
  - Code, and the model: the hard-coded prices live inside the sale price reader. They appear only when a Redfin file is read and the reader succeeds, and only after the region's alias lookup has succeeded.

Numbers are exact (`int`, `real`) rather than floats. Missing values (NaN, None, pd.NA) are the single value `NA` of the output table, or `None` in an optional cell.

## Model

| member | source | states |
|---|---|---|
| Common.NatToString | data_analyzer/data_processor.py:391-396 | `str(n)` is a non-empty string of digits, with two or more digits exactly when n ≥ 10 |
| Common.ParseIntOfIntToString | data_analyzer/data_processor.py:282 | `int(str(i)) == i` for every integer, negative ones included |
| Common.Replace | data_analyzer/data_processor.py:281 | after `replace(c, rep)` with a `rep` free of `c` no `c` is left; a string without `c` is unchanged |
| Common.ReplaceAppend | data_analyzer/data_processor.py:281 | a one-character replace distributes over concatenation |
| Common.ContainsAt | data_analyzer/data_processor.py:112 | a substring occurring at any position makes `needle in haystack` true |
| Common.ContainsPosition | data_analyzer/data_processor.py:112 | conversely, `needle in haystack` names a position where the needle occurs |
| Common.NatToStringSplitsThousands | data_analyzer/data_processor.py:281 | the decimal form of n ≥ 1000 is that of n / 1000 followed by the three digits of n % 1000 |
| Common.StripThousandsSeparators | data_analyzer/data_processor.py:281 | deleting the commas of a comma-grouped count gives its plain decimal form |
| Common.DigitsValueAppendZeros | data_analyzer/data_processor.py:363 | appending "000" to a digit string multiplies its value by 1000 |
| Common.ParseDecimalOfNatToString | data_analyzer/data_processor.py:364 | `float(str(n)) == n` |
| Common.TruncateToInt | data_analyzer/data_processor.py:364 | `int(x)` truncates toward zero, for both signs |
| Common.PriceText | data_analyzer/data_processor.py:363 | the cleaned price text contains no "$" and no "K" |
| Common.PriceTextOfThousands | data_analyzer/data_processor.py:363-364 | "$<n>K" reads as n × 1000 |
| Common.FractionalThousandsReadLiterally | data_analyzer/data_processor.py:363 | the textual substitution turns "$1.5K" into "1.5000", which reads as 1.5 |
| Tables.ColumnIndex | data_analyzer/data_processor.py:241-247 | `df[name]` finds the first column labelled `name`; it fails (KeyError) exactly when no column has that label |
| Tables.AsNumber | data_analyzer/data_processor.py:399-401 | a cell has a number exactly when it holds an integer or a decimal |
| Tables.IndexOfKey | data_analyzer/data_processor.py:282 | the position of a key in the dict, or none when no pair has that key |
| Tables.Put | data_analyzer/data_processor.py:282 | `d[k] = v` keeps the length for an existing key and adds one pair for a new key |
| Tables.DictOfDistinct | data_analyzer/data_processor.py:275-283 | with distinct region keys the dict holds one pair per region, in row order, and its values are the per-row values |
| Tables.DictOfFullLength | data_analyzer/data_processor.py:275-283 | a dict with as many pairs as rows implies the region keys were distinct: a repeated key makes `.values` shorter |
| Tables.DictOfLength | data_analyzer/data_processor.py:275-283 | the dict never has more pairs than there were rows |
| Tables.FirstError | data_analyzer/data_processor.py:275-283 | the reported exception is that of a row before which every row succeeded |
| Tables.Collect | data_analyzer/data_processor.py:275-283 | the per-row loop succeeds exactly when every row does, with at most one pair per row |
| Tables.CollectFits | data_analyzer/data_processor.py:518-519 | a dict whose values fill a column of that length means every row succeeded, the keys were distinct, and value i is row i's |
| Tables.FillDict | data_analyzer/data_processor.py:275-283 | the loop leaves the dict of all rows, or the exception of the first row that raised |
| Tables.CollectStep | data_analyzer/data_processor.py:282 | one more successful row extends the dict by exactly one assignment |
| Tables.FirstErrorAt | data_analyzer/data_processor.py:275-283 | the first raising row's exception is the loop's exception |
| RegionKeys.ProcessKeys | data_analyzer/data_processor.py:237-247 | a missing column raises KeyError. The columns are checked in the order alternative_name, region_type, key_row. Otherwise the filter fails with TypeError exactly when some state row lacks a key, and else returns the kept keys |
| RegionKeys.KeptKeysSelectFrom | data_analyzer/data_processor.py:243-247 | from any row on, the output lists the keys of exactly the kept rows (state rows whose key has no apostrophe), in increasing row order |
| RegionKeys.KeptKeysSelect | data_analyzer/data_processor.py:243-247 | the same over the whole keys table |
| RegionKeys.KeptKeysMembership | data_analyzer/data_processor.py:243-247 | a key is in the output exactly when some state row without an apostrophe holds it |
| RegionKeys.FirstMatch | data_analyzer/data_processor.py:261-262 | the first row whose key_row equals the key, no match before it; none exactly when no row matches |
| RegionKeys.FindKeyRow | data_analyzer/data_processor.py:250-262 | KeyError without a key_row column; Python's None exactly when no row matches |
| RegionKeys.FindKeyRowFirst | data_analyzer/data_processor.py:261-262 | with a match, the lookup reads the requested column of the first matching row, or raises KeyError when there is no such column |
| RegionKeys.FindKeyRowTakesFirst | data_analyzer/data_processor.py:261-262 | example: of two rows with the same key the first one is used, whatever its region type |
| CensusReaders.SelectRows | data_analyzer/data_processor.py:270-272 | every selected row's label contains the needle; a missing label never matches |
| CensusReaders.SelectRowsFirst | data_analyzer/data_processor.py:270-281 | the selection is empty exactly when no label matches; its first row is the first matching row |
| CensusReaders.CensusValue | data_analyzer/data_processor.py:277-282 | a region's value, when it is read, is an integer |
| CensusReaders.CensusValueOfCount | data_analyzer/data_processor.py:277-282 | a region whose column holds a comma-grouped count reads as exactly that count |
| CensusReaders.CensusValueWithoutAlias | data_analyzer/data_processor.py:277-279 | a region without a census name (None, or a missing cell) raises TypeError |
| CensusReaders.CensusValueErrors | data_analyzer/data_processor.py:277-282 | with a census name known: KeyError for a missing `<name><suffix>` column, IndexError when no label row was selected, AttributeError for a missing cell, ValueError for text that is not an integer once the commas are removed, and otherwise that integer |
| CensusReaders.CensusValueLookupError | data_analyzer/data_processor.py:277-279 | a `find_key_row` that raises makes the region's value raise the same exception |
| CensusReaders.CensusColumn | data_analyzer/data_processor.py:265-283 | KeyError without the label column; otherwise at most one pair per region |
| CensusReaders.CensusColumnPositional | data_analyzer/data_processor.py:275-283 | the reader fails exactly when some region fails; otherwise, with distinct keys, value i is region i's |
| CensusReaders.ReadCensus | data_analyzer/data_processor.py:268-283 | the selection plus the per-region loop compute exactly `CensusColumn` |
| CensusReaders.ReadPopulation | data_analyzer/data_processor.py:265-283 | `process_census_population_data`, with "Total population" and "!!Estimate" |
| CensusReaders.ReadIncome | data_analyzer/data_processor.py:286-305 | `process_median_household_income_data`, with "Households" and "!!Median income (dollars)!!Estimate" |
| SalePrice.ShiftHeaderRoundTrip | data_analyzer/data_processor.py:329-330 | when the first row has one cell per column, the shift loses nothing: the labels followed by the data rows give back the file's rows |
| SalePrice.LatestColumn | data_analyzer/data_processor.py:335-338 | the rightmost column after the first that has any value, no column to its right having one; none when no such column has a value |
| SalePrice.LatestDate | data_analyzer/data_processor.py:332-338 | the right-to-left scan returns that column's label, or None |
| SalePrice.LatestUsable | data_analyzer/data_processor.py:360-362 | the rightmost cell after the first that is present and non-empty, none to its right being so |
| SalePrice.LatestPrice | data_analyzer/data_processor.py:359-366 | the scan with `break` prices the rightmost usable cell, and gives NA when there is none |
| SalePrice.SalePriceOf | data_analyzer/data_processor.py:340-369 | the loop body computes exactly the region's price outcome |
| SalePrice.SalePriceColumn | data_analyzer/data_processor.py:308-371 | IndexError for a file without rows; otherwise at most one price per region, plus the latest month label |
| SalePrice.SalePriceColumnPositional | data_analyzer/data_processor.py:329-369 | for a non-empty file, the reader succeeds exactly when every region's price does. With distinct keys, value i is then region i's price, and the month is the label of the latest column with a value, or None when there is none |
| SalePrice.ReadSalePrice | data_analyzer/data_processor.py:327-371 | the reader computes exactly `SalePriceColumn` |
| SalePrice.SalePrices | data_analyzer/data_processor.py:340-369 | the region loop leaves the dict of all regions or the first region's exception |
| SalePrice.FixedPrices | data_analyzer/data_processor.py:342-352 | washington_dc gets 565000 and puerto_rico 138000 whatever the file holds, once their alias lookup succeeds |
| SalePrice.UnmatchedRegionIsMissing | data_analyzer/data_processor.py:355-369 | another region whose alias names no row of the file is NA |
| SalePrice.MatchedRegionPrice | data_analyzer/data_processor.py:355-366 | otherwise its price is that of the rightmost usable cell of the first row naming it |
| SalePrice.PriceOfThousands | data_analyzer/data_processor.py:363-364 | "$<n>K" is priced n × 1000 |
| SalePrice.PriceOfFractionalThousands | data_analyzer/data_processor.py:363-364 | "$1.5K" is priced 1, not 1500 |
| Ranking.OrdinalSpelledOut | data_analyzer/data_processor.py:391-396 | `get_ordinal(n)` is n's digits followed by the English suffix read off those digits: "th" after a tens digit 1, else "st"/"nd"/"rd" after a last digit 1/2/3, else "th" |
| Ranking.OrdinalDigits | data_analyzer/data_processor.py:391-396 | an ordinal is n's digits and a two-letter suffix, so n can be read back from it |
| Ranking.OrdinalIsNotAWord | data_analyzer/data_processor.py:389-396 | an ordinal is never "N/A", "single" or "the highest" |
| Ranking.OrdinalExamplesUnits | data_analyzer/data_processor.py:392-396 | 1st, 2nd, 3rd, 4th |
| Ranking.OrdinalExamplesTeens | data_analyzer/data_processor.py:392-393 | 11th, 12th, 13th |
| Ranking.OrdinalExamplesTwenties | data_analyzer/data_processor.py:394-396 | 21st, 22nd |
| Ranking.OrdinalExampleHundreds | data_analyzer/data_processor.py:392-393 | 112th |
| Ranking.RankColumn | data_analyzer/data_processor.py:374-404 | one rank text per value |
| Ranking.RankMissingIff | data_analyzer/data_processor.py:389-403 | the rank reads "N/A" exactly when the value is not a number |
| Ranking.RankBounds | data_analyzer/data_processor.py:399-401 | a present value's rank lies between 1 and the number of present values |
| Ranking.RankTies | data_analyzer/data_processor.py:399-401 | tied values share one rank (method "min") |
| Ranking.RankStrictlyBetter | data_analyzer/data_processor.py:399-401 | a strictly better value (larger when descending, smaller when ascending) gets a strictly smaller rank |
| Ranking.CountBetterPermutation | data_analyzer/data_processor.py:399-401 | the number of values ahead of x depends only on the multiset of values |
| Ranking.RankPermutation | data_analyzer/data_processor.py:399-401 | reordering the rows does not change any row's rank |
| Ranking.RankExample | data_analyzer/data_processor.py:399-403 | two values tied for the top both rank "1st"; the next one is "3rd"; a missing one is "N/A" |
| Affordability.RoundTenth | data_analyzer/data_processor.py:59 | `round(x, 1)` is a whole number of tenths within 0.05 of x |
| Affordability.RoundTenthTies | data_analyzer/data_processor.py:59 | on exact reals, a tie goes to the even tenth: 0.25 → 0.2, 0.35 → 0.4 |
| Affordability.AffordabilityRatio | data_analyzer/data_processor.py:57-65 | NA exactly when price or income is missing. It raises exactly when both are present and one is not a number (TypeError) or the income is zero (ZeroDivisionError). Otherwise it is the rounded quotient |
| Affordability.RatioColumn | data_analyzer/data_processor.py:57-65 | `df.apply` succeeds exactly when every row does, with one ratio per row; otherwise it gives the first raising row's exception |
| Affordability.RatioPresence | data_analyzer/data_processor.py:57-65 | a ratio is present exactly when both its price and its income are |
| Affordability.RatioCloseToQuotient | data_analyzer/data_processor.py:59 | a present ratio of integers is within 0.05 of the exact quotient |
| Affordability.ZeroIncomeAborts | data_analyzer/data_processor.py:57-65 | a zero income aborts the whole column, whatever the other rows hold |
| Blurbs.ProcessBlurbs | data_analyzer/data_processor.py:407-503 | each generator's loop leaves the dict of all blurbs or the first region's lookup exception |
| Blurbs.BetweenOf | data_analyzer/data_processor.py:414 | the text between a known prefix and suffix is recovered exactly |
| Blurbs.PopulationBlurbKeepsRank | data_analyzer/data_processor.py:413-414 | the population blurb holds the rank text verbatim between "<name> is " and the two-space ending |
| Blurbs.OrdinalFirst | data_analyzer/data_processor.py:426-430 | a rank text is "1st" exactly for rank 1 |
| Blurbs.IncomeBlurbRank | data_analyzer/data_processor.py:425-431 | the income blurb says "the highest" for rank 1 and holds any other rank text verbatim |
| Blurbs.SalePriceBlurbRank | data_analyzer/data_processor.py:452-460 | the sale price blurb says "single" for rank 1 and holds any other rank text verbatim ("N/A" included), and ends with the month |
| Blurbs.AffordabilityBlurbMissingRank | data_analyzer/data_processor.py:484-498 | a missing or "N/A" rank gives the short "has an N/A house affordability ratio." sentence |
| Blurbs.AffordabilityRankOfOrdinal | data_analyzer/data_processor.py:484-490 | a present rank reads "single" for rank 1, else its ordinal, and never "N/A" |
| Blurbs.AffordabilityBlurbRank | data_analyzer/data_processor.py:484-500 | a present rank gives the long sentence, with "single" for rank 1 and the month at the end |
| Blurbs.MissingNameInPopulationBlurb | data_analyzer/data_processor.py:413-414 | a region the keys table does not know is called "None" |
| Blurbs.MissingNameInIncomeBlurb | data_analyzer/data_processor.py:425-431 | the same in the income blurb |
| Blurbs.MissingNameInSalePriceBlurb | data_analyzer/data_processor.py:452-460 | the same in the sale price blurb |
| Blurbs.MissingNameFallback | data_analyzer/data_processor.py:492-500 | the affordability blurb calls such a region "Region (<key>)" instead |
| Pipeline.AllColumnsComplete | data_analyzer/data_processor.py:86-100 | the thirteen output columns are all the columns there are |
| Pipeline.Blank | data_analyzer/data_processor.py:518-519 | a table that receives its first column has every other column missing |
| Pipeline.CombinedTable.constructor | data_analyzer/data_processor.py:103 | the table starts with no rows and every column empty |
| Pipeline.CombinedTable.SetColumn | data_analyzer/data_processor.py:518-519 | An empty table takes the values' length, and its other columns become missing. Otherwise the lengths must agree. If they don't, ValueError leaves the table unchanged |
| Pipeline.Assign | data_analyzer/data_processor.py:518-519 | on a table with rows the row count stays; the assignment succeeds exactly when the lengths agree and changes only that column |
| Pipeline.KeyColumnFromKeysFile | data_analyzer/data_processor.py:109-122 | a region column with rows is the filter's output for one of the KEYS files |
| Pipeline.KeyColumnWithoutKeysFile | data_analyzer/data_processor.py:109-122 | without a KEYS file that is read and filtered, the table has no rows |
| Pipeline.KeyColumnOfOnlyKeysFile | data_analyzer/data_processor.py:109-122 | with exactly one KEYS file that is read and filtered, the region column is exactly that file's filtered keys |
| Pipeline.LoadKeys | data_analyzer/data_processor.py:109-122 | `keys_df` ends as the last KEYS file that was read. The region column is the fold of the KEYS files' filtered keys: the first non-empty one fixes the rows, and a later one of another length is skipped. The other columns stay missing |
| Pipeline.SetKeyColumn | data_analyzer/data_processor.py:116-118 | the region column is assigned unless its length clashes with an earlier KEYS file's rows; the other columns stay missing |
| Pipeline.ReadOf | data_analyzer/data_processor.py:129-153 | a reader output fills one of the three reader columns, never with more values than there are regions, and only for a non-KEYS file that was read while `keys_df` was set |
| Pipeline.SourcesLastFill | data_analyzer/data_processor.py:129-157 | a reader column holds the values of the last file whose reader filled it with one value per region |
| Pipeline.SourcesNoFill | data_analyzer/data_processor.py:129-157 | a reader column that no file filled keeps its value from before the loop |
| Pipeline.SourcesLastDate | data_analyzer/data_processor.py:125-150 | `redfin_date` is the month of the last sale price reader that returned |
| Pipeline.ReadSources | data_analyzer/data_processor.py:124-157 | the data-file loop keeps the row count and every other column. Each reader column becomes the fold of the readers' outputs (the last one that fit), and `redfin_date` that of their months |
| Pipeline.ReadFile | data_analyzer/data_processor.py:130-157 | one pass: the reader's Series is assigned to its column exactly when it has one value per row, and a sale price reader that returned sets the date |
| Pipeline.ComputeRanks | data_analyzer/data_processor.py:159-172 | each of the three rank columns is the descending rank of its value column; nothing else changes |
| Pipeline.AddBlurbColumn | data_analyzer/data_processor.py:176-177 | The stage goes through exactly when no region's lookup raises and the regions are distinct, so the dict has one blurb per row. It then changes only the blurb column, and row i holds region i's blurb. Otherwise the table is unchanged: the first failing lookup's exception, or ValueError from `combine_data` when a repeated region shortens the dict |
| Pipeline.BlurbColumn | data_analyzer/data_processor.py:176-177 | the generator fails exactly when some region's lookup fails (first exception). Its result has one blurb per region exactly when no lookup fails and the regions are distinct; such a result is row-by-row the regions' blurbs |
| Pipeline.BlurbsAtRow | data_analyzer/data_processor.py:410-416 | in a generated blurb column, row i is the blurb of region i and its rank |
| Pipeline.AddBlurbs | data_analyzer/data_processor.py:174-192 | An unset `keys_df` raises NameError and changes nothing. Only the three blurb columns change. The stage goes through exactly when `keys_df` is set and each of the three generators fits the regions and ranks it reads; then each column holds its regions' blurbs |
| Pipeline.AddLaterBlurbs | data_analyzer/data_processor.py:179-191 | the income and sale price generators change only their blurb columns. They go through exactly when both fit the regions and ranks, and then fill their columns row by row |
| Pipeline.FinalStage | data_analyzer/data_processor.py:194-216 | If ratio computation raises, the table is unchanged. Otherwise the ratio and its ascending rank are assigned. A failing affordability blurb leaves those two in place. A successful one fills its column row by row. The block goes through exactly when every ratio can be computed and the affordability generator fits the regions and that rank |
| Pipeline.RatioColumnBacked | data_analyzer/data_processor.py:196-198 | a computed ratio is present only where price and income are |
| Pipeline.RatioStageBacked | data_analyzer/data_processor.py:194-223 | after the handled block the ratio column is backed by price and income, computed or still all missing |
| Pipeline.HandledBlock | data_analyzer/data_processor.py:194-223 | the block changes only the three affordability columns, and its ratio column is backed by price and income. It goes through exactly when every ratio can be computed and the affordability generator fits; it then holds the ratio, its ascending rank and the blurb of each region |
| Pipeline.FinishRun | data_analyzer/data_processor.py:174-223 | After the rank stage only blurb and affordability columns change. Without keys the run raises NameError. The run raises exactly when keys are unset or the blurb stage does not fit. It is saved exactly when, in addition, the handled block fits. A run that is not aborted keeps the three blurb columns of the blurb stage and leaves a backed ratio column; a saved run holds the ratio, its rank and the affordability blurbs |
| Pipeline.SourcesAndRanksKeep | data_analyzer/data_processor.py:124-172 | the readers and the rank stage leave the region column and the ratio column as they were, and the rank stage the reader columns |
| Pipeline.PrepareTable | data_analyzer/data_processor.py:103-172 | up to the rank stage: `keys_df` is the last KEYS file read; the region column and the reader columns are those of the two loading loops, and `redfin_date` is the last sale price month; ranks agree with their values; the ratio column is all missing |
| Pipeline.LaterStagesKeep | data_analyzer/data_processor.py:174-223 | the later stages leave the region column, the values and their ranks as they were |
| Pipeline.ProcessCsvFiles | data_analyzer/data_processor.py:68-234 | No input file raises NoInputFiles. No KEYS file read raises NameError. The region column and the three reader columns are what the two loading loops put there, and with input files the ranks agree with their values. The run is saved exactly when there are input files, a KEYS file was read, the blurb stage fits and the handled block fits the loaded table. Any run that is not aborted has the three blurb columns generated from the regions, their ranks and the last sale price month, and a backed ratio column. A saved run holds the ratio, its ascending rank and its blurbs |
| TimeSeries.ParseCell | data_analyzer/time_series_analyzer.py:38 | a missing cell stays missing |
| TimeSeries.ParseCellOfThousands | data_analyzer/time_series_analyzer.py:38 | "$<n>K" reads as n × 1000 |
| TimeSeries.FirstLabel | data_analyzer/time_series_analyzer.py:34 | the first column whose label is "Region", none before it; none when no label is |
| TimeSeries.DataColumnsSkipRegion | data_analyzer/time_series_analyzer.py:34-38 | the data columns are the other columns, in order, each once |
| TimeSeries.RedfinTable | data_analyzer/time_series_analyzer.py:27-43 | IndexError without rows; KeyError without a "Region" label; otherwise one column of prices per month, one price per region |
| TimeSeries.RedfinTableCells | data_analyzer/time_series_analyzer.py:29-38 | cell by cell: the index is the region column of rows 1 onward, the months come from row 0, and each price is its source cell parsed |
| TimeSeries.LoadRedfinData | data_analyzer/time_series_analyzer.py:17-43 | the loader computes exactly `RedfinTable` |
| TimeSeries.DataColumns | data_analyzer/time_series_analyzer.py:37-38 | the column loop yields, for data column j, the label and the parsed prices of source column j, skipping the region column |
| TimeSeries.PctChange | data_analyzer/time_series_analyzer.py:60-61 | Missing when an operand is missing or both are zero. ±infinity from a zero base. Otherwise a finite g with base × (1 + g/100) = latest |
| TimeSeries.GrowthSign | data_analyzer/time_series_analyzer.py:60 | from a positive base, growth is positive exactly when the price rose, and zero exactly when it stayed |
| TimeSeries.GrowthExample | data_analyzer/time_series_analyzer.py:60 | from 100,000 to 110,000 is 10 % |
| TimeSeries.GrowthRates | data_analyzer/time_series_analyzer.py:46-67 | IndexError exactly when there is no month. Otherwise, per region, the growth of the last month over the one before (missing with one month) and over the one twelve months earlier (missing with fewer than 13) |
| TimeSeries.MonthOverMonthInverse | data_analyzer/time_series_analyzer.py:60 | a finite month-over-month growth recovers the last price from the previous one |
| TimeSeries.YearOverYearNeedsThirteenMonths | data_analyzer/time_series_analyzer.py:61 | year-over-year growth is missing unless there are at least 13 months |
| TimeSeries.PresentSelectsFrom | data_analyzer/time_series_analyzer.py:186 | `dropna` from a position on keeps the present cells in order, one value per present cell |
| TimeSeries.PresentSelects | data_analyzer/time_series_analyzer.py:186 | `dropna` is exactly the present values in their positions' order, with repetitions kept |
| TimeSeries.NothingPresent | data_analyzer/time_series_analyzer.py:186 | nothing left after `dropna` means every value was missing |
| TimeSeries.Max | data_analyzer/time_series_analyzer.py:188 | the maximum is one of the values and no value exceeds it |
| TimeSeries.Min | data_analyzer/time_series_analyzer.py:189 | the minimum is one of the values and no value is below it |
| TimeSeries.SumBounds | data_analyzer/time_series_analyzer.py:187 | count × lower bound ≤ sum ≤ count × upper bound |
| TimeSeries.MeanBounds | data_analyzer/time_series_analyzer.py:187 | bounds on every value bound the mean |
| TimeSeries.MeanBetweenMinAndMax | data_analyzer/time_series_analyzer.py:187-189 | the mean lies between the minimum and the maximum |
| TimeSeries.SummaryStats | data_analyzer/time_series_analyzer.py:183-189 | IndexError exactly when there is no month. Otherwise: the first and last month, the region count, and the mean (sum over count of the present latest prices), maximum and minimum of the latest present prices. These are present exactly when some latest price is present and bound every one of them |
| TimeSeries.AnalyzeTimeSeries | data_analyzer/time_series_analyzer.py:201-228 | A loading error propagates, and no month raises IndexError. The analysis succeeds exactly when the table loads and has a month. The statistics are then `SummaryStats` of the loaded table, with one result row per region: its latest price and its growth rates |

## Left out

- `read_csv`, `get_csv_files` (data_analyzer/utils.py), directory checks, `to_csv` and the output path: file I/O. Each input file is given as a name and the table, or the exception, that reading it produced. The run's outcome records whether the table was saved.
- Type inference by `read_csv`. Every present cell of an input file is text, so the model does not cover numeric dtypes that pandas infers on load (for example a KEYS file whose `key_row` column reads as numbers).
- Python floats and float formatting (`float_format="%.1f"`, `f"${x:,.0f}"`): numbers are exact. The rounding in `round(x, 1)` and the division in the ratio and in `pct_change` are exact real operations.
- Number syntax: `int(...)`, `float(...)` and `to_numeric` accept only an optional sign and decimal digits with at most one point. Exponents, "inf", "nan", surrounding whitespace and underscores are not modelled.
- `pd.to_datetime(..., format='%B %Y')` on the month labels and `strftime('%Y-%m')` in the summary: the model keeps months as their text labels, so a label that does not parse as a month does not raise.
- The logger, the progress bar, the rich console tables and the plotting functions (`plot_all_states`, `plot_summary_stats`): output only.
- The partial save in the exception handler of the final block (data_processor.py:222-232) writes nothing that the final table does not already hold. It is represented by the `FinalStageFailed` outcome.
- `combine_data` for a DataFrame or a scalar argument (data_processor.py:520-526): the pipeline only passes it a Series.
- `Ranking`: a cell that holds text in a value column is treated as missing by the rank. pandas raises TypeError when it ranks a column that mixes text with numbers, because they cannot be compared. A column of integers and missing values, which is what the readers produce, ranks without error in both.
- A duplicated column label in an input file: `df[label]` is then a DataFrame, and the program raises where it reads such a label. It raises TypeError at the `int(...)` of data_processor.py:281-282, ValueError at the truth tests of data_processor.py:336 and :361, and AttributeError at `.str` in time_series_analyzer.py:38. The model computes a value instead. The keys and census lookups take the first column with that label; the Redfin scans (`LatestColumn`, `LatestUsable`, `DataColumns`) walk the columns by position and read each duplicate.
- Pipeline.ProcessCsvFiles: states that an empty file list raises NoInputFiles, not the converse. No later stage can raise NoInputFiles, but that fact is not stated separately.
- Pipeline.FinishRun: states exactly when the run raises, but not which exception a failing blurb generator raises. `AddBlurbColumn` states that for each generator.
- Pipeline.ProcessCsvFiles: a run that raised still returns the table built so far (outcome `Raised`). In Python the exception reaches the caller instead.
- Affordability.RoundTenth: the contract states "a whole number of tenths within 0.05", which does not say which tenth wins a tie. `RoundTenthTies` pins exact ties of reals on examples. Python rounds the binary float instead, which is rarely an exact tie: `round(0.35, 1)` is 0.3 there and 0.4 here.
- CensusReaders.CensusValue: the contract only states that a read value is an integer. The error cases are stated by `CensusValueErrors`, `CensusValueLookupError` and `CensusValueWithoutAlias`, the value by `CensusValueOfCount`, and the dict it fills by `CensusColumnPositional`.
- Ranking.RankColumn: on its own, the contract states only the length. The meaning of each rank is stated per row by `RankMissingIff`, `RankBounds`, `RankTies`, `RankStrictlyBetter` and `RankPermutation`.
