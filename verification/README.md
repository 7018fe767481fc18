# piezo_dataset_builder, modelled in Dafny

`piezo_dataset_builder` builds a daily dataset for French groundwater
monitoring wells (piezometric stations, named by their BSS code). For a list
of codes and a date range it combines three things:

- the station attributes from the Hub'Eau piezometry API;
- the daily groundwater-level measurements ("chroniques") from the same API;
- the daily weather at each station. The weather comes from Open-Meteo, from
  the Copernicus ERA5-Land reanalysis, or from a local ERA5 NetCDF file.

The result is laid out on a (station × day) grid. A validator normalises
BSS codes typed by users and picks the code column of an uploaded table.

This project models that pipeline as pure functions over immutable tables:

- a `Table` is a list of column names and a sequence of rows;
- a `Row` is a map from column name to a `Value` (number, text, instant,
  calendar day, JSON list or object, or missing);
- instants are integer seconds since the epoch, and calendar days are
  integer day numbers;
- physical quantities are `real`.

Every network exchange, file read and download is a function-typed
parameter: HTTP answers, the CDS download and the NetCDF grid.

| file | module | what it holds |
|---|---|---|
| `wrappers.dfy` | `Wrappers` | `Option`, `Result` |
| `seqs.dfy` | `Seqs` | distinctness, subsequences, order-preserving filter and de-duplication, flattening, images |
| `strings.dfy` | `Strings` | ASCII lower case, substring search, whitespace strip, decimal rendering and parsing |
| `tables.dfy` | `Tables` | values, rows and tables, and the pandas operations the code uses (select, drop, assign, rename, `to_numeric`, `.dt.date`, `DataFrame(records)`, `concat`) |
| `grouping.dfy` | `Grouping` | `groupby(keys).agg(...)` with sum, mean and first, which skip missing values |
| `joins.dfy` | `Joins` | `merge(how='left', on=keys, suffixes=...)` |
| `sorting.dfy` | `Sorting` | `sort_values(['code_bss', 'date'])` |
| `validator.dfy` | `Validator` | `clean_bss_code`, `extract_station_codes`, `validate_station_codes` |
| `hubeau.dfy` | `HubEau` | the Hub'Eau client |
| `meteo.dfy` | `Meteo` | the Open-Meteo client |
| `era5.dfy` | `Era5` | the ERA5-Land CDS client |
| `era5_local.dfy` | `Era5Local` | the local ERA5 NetCDF client |
| `dates.dfy` | `Dates` | ISO date and date-time parsing, day numbers, the pandas timestamp range |
| `dataset_builder.dfy` | `DatasetBuilder` | `build_dataset` and its helpers |

The modelled operation runs through these steps:

1. **Validation.** Check the code list and the date range.
2. **Station table.** Fetch the station attributes and keep the wanted columns.
3. **Grid.** Build the (station × day) grid. When levels were requested:
   - fetch them, keeping the wanted fields;
   - collapse them to one row per station and day;
   - left-join them onto the grid.
4. **Weather.** Left-join the weather when it was requested and the table has
   coordinates. If the weather step fails, it ends in `WeatherFailed`, carrying
   the dataset saved up to that point.
5. **Finish.** Sort by station and date, and drop the coordinates when they
   were fetched only for the weather.

Where the code departs from its evident intent (see Findings), the model keeps both versions. The Open-Meteo client has `Meteo.GetWeatherData` as written and `Meteo.GetWeatherDataCorrected`. The builder takes a `Variant`: `AsWritten` follows the code and `Corrected` the intent, and `DatasetBuilder.BuildDatasetVariantsAgree` states when the two agree.

## Model

All source paths are relative to the repository root.

| member | source | states |
|---|---|---|
| `Strings.Strip` | src/piezo_dataset_builder/core/validator.py:52 | the result is a slice of the input, bounded on each side by whitespace only, and neither starts nor ends with whitespace |
| `Strings.StripIdempotent` | src/piezo_dataset_builder/core/validator.py:52 | stripping a stripped string changes nothing |
| `Strings.Contains` | src/piezo_dataset_builder/core/validator.py:84-85 | `pattern in text` holds exactly when the pattern occurs at some position |
| `Strings.DecimalRoundTrip` | src/piezo_dataset_builder/api/era5.py:193 | `str(y)` of a year reads back as the same year |
| `Validator.SearchNew` | src/piezo_dataset_builder/core/validator.py:24-32 | the new-format search finds the leftmost `BSS` followed by seven upper-case letters or digits, and finds none only when there is none anywhere |
| `Validator.OldRoot` | src/piezo_dataset_builder/core/validator.py:27 | a root match is 8 to 10 characters, all digits or X, Y or Z; there is none exactly when none of the four shapes fits (4–5 digits, then X, Y or Z, then 3–4 digits) |
| `Validator.SearchOld` | src/piezo_dataset_builder/core/validator.py:27-36 | the old-format search finds the leftmost position where the old pattern matches, and finds none only when it matches nowhere |
| `Validator.SuffixLen` | src/piezo_dataset_builder/core/validator.py:27 | a measured suffix stays inside the string and is a `/` followed by at least one upper-case letter or digit |
| `Validator.CleanBssCode` | src/piezo_dataset_builder/core/validator.py:14-52 | empty gives empty; a new-format match takes priority and is returned alone; otherwise an old-format match gives its root, or its root with a suffix of at most two characters after the `/`; with no match, the input stripped |
| `Validator.CleanIdempotent` | src/piezo_dataset_builder/core/validator.py:14-52 | cleaning an already cleaned code changes nothing |
| `Validator.PatternRank` | src/piezo_dataset_builder/core/validator.py:93-101 | the rank is the first priority pattern the lower-cased name contains; no earlier pattern occurs in it |
| `Validator.Candidates` | src/piezo_dataset_builder/core/validator.py:82-86 | the candidates are exactly the columns whose lower-cased name contains `bss`, `code`, `station` or `piezo`, in column order |
| `Validator.PickByPriority` | src/piezo_dataset_builder/core/validator.py:93-105 | the chosen candidate matches the highest-priority pattern any candidate matches, and is the first candidate to do so; with no pattern matched, it is the first candidate |
| `Validator.ChooseColumn` | src/piezo_dataset_builder/core/validator.py:76-112 | a lone column is used directly; otherwise the priority-chosen candidate is used; without candidates, the first column |
| `Validator.CodeOf` | src/piezo_dataset_builder/core/validator.py:123-130 | a kept code is non-empty and already clean |
| `Validator.CleanedCodes` | src/piezo_dataset_builder/core/validator.py:119-132 | a code comes out exactly when some cell gives it after stripping, the placeholder filter and cleaning |
| `Validator.UniquePresent` | src/piezo_dataset_builder/core/validator.py:115 | `dropna().unique()`: the non-missing cells, each once |
| `Validator.ExtractStationCodes` | src/piezo_dataset_builder/core/validator.py:55-139 | an empty table gives no codes; otherwise the cleaned codes of the chosen column, in first-seen order, each once, all non-empty and clean |
| `Validator.SampleEnd` | src/piezo_dataset_builder/core/validator.py:163 | the end of the slice `codes[:min(size, n)]`, including Python's negative-index case |
| `Validator.FoundCodes` | src/piezo_dataset_builder/core/validator.py:181 | the codes the directory lists, as `str(c).strip()` |
| `Validator.ValidateStationCodes` | src/piezo_dataset_builder/core/validator.py:142-195 | the sample is the leading slice; the valid and invalid lists partition it, in order; a code is valid exactly when the directory lists it; a failed, empty or code-less answer makes the whole sample invalid |
| `Tables.Select` | src/piezo_dataset_builder/core/dataset_builder.py:132-133 | `df[[c for c in df.columns if c in keep]]`: the kept columns in original order, every row and cell unchanged |
| `Tables.Drop` | src/piezo_dataset_builder/core/dataset_builder.py:344-346 | only the named columns disappear; the others keep their order and cells |
| `Tables.SetColumn` | src/piezo_dataset_builder/api/hubeau.py:305 | assigning a column overwrites it in place or appends it last, and changes no other cell |
| `Tables.Rename` | src/piezo_dataset_builder/core/dataset_builder.py:551-552 | renaming moves one column's cells to the new name in the same position and leaves the others alone |
| `Tables.RenameColumns` | src/piezo_dataset_builder/core/dataset_builder.py:177-178 | renaming by a mapping keeps positions and cells |
| `Tables.ToDate` | src/piezo_dataset_builder/core/dataset_builder.py:559 | `pd.to_datetime(...).dt.date`: an instant becomes its calendar day, a day stays itself, and anything else becomes missing |
| `Tables.ToStamp` | src/piezo_dataset_builder/core/dataset_builder.py:272-274 | `pd.to_datetime(errors='coerce')`: an instant stays; a day becomes its midnight; a text becomes an instant exactly when it parses as `YYYY-MM-DD` or that date followed by `T` or a space and `HH:MM[:SS]`; anything else is missing |
| `Tables.ToDateIso` | src/piezo_dataset_builder/core/dataset_builder.py:272-274 | a `YYYY-MM-DD` or `YYYY-MM-DDTHH:MM:SS` text within the timestamp range becomes the calendar day it names |
| `Tables.ToNumeric` | src/piezo_dataset_builder/core/dataset_builder.py:413-416 | `to_numeric(errors='coerce')`: the result is a number or missing, and a number is kept as it is |
| `Tables.FromRecords` | src/piezo_dataset_builder/api/hubeau.py:210 | `DataFrame(records)`: one row per record; the columns are the keys seen in any record, in first-seen order; a key absent from a record is a missing cell |
| `Tables.Concat` | src/piezo_dataset_builder/api/hubeau.py:361-365 | `concat(ignore_index=True)`: every input row in order, widened to the union of the columns; no table gives the empty table |
| `Tables.ConcatGet` | src/piezo_dataset_builder/api/hubeau.py:365 | each cell of the stacked table reads the input row it came from; a column that row lacks reads as missing |
| `Tables.ConcatRowFrom` | src/piezo_dataset_builder/api/hubeau.py:365 | every stacked row has the cells of some row of some input |
| `Tables.NonEmpty` | src/piezo_dataset_builder/api/hubeau.py:346-352 | the non-empty tables, in their input order (a subsequence of the inputs), as many as there are non-empty inputs |
| `Tables.NonEmptyRowFrom` | src/piezo_dataset_builder/api/hubeau.py:346-365 | every row of the stacked non-empty tables has the cells of some input row |
| `Tables.SingleColumn` | src/piezo_dataset_builder/core/dataset_builder.py:137 | `DataFrame({'code_bss': codes})`: one row per value, in order |
| `Grouping.FirstOf` | src/piezo_dataset_builder/core/dataset_builder.py:201 | `first` is the first non-missing value, and is missing only when all values are |
| `Grouping.GroupKeys` | src/piezo_dataset_builder/core/dataset_builder.py:204 | the groups are the complete key tuples present, each once; a key with a missing part forms no group |
| `Grouping.GroupBy` | src/piezo_dataset_builder/core/dataset_builder.py:204 | `groupby(keys, as_index=False).agg(specs)`: the keys then the aggregated columns, one row per group, never more rows than the input |
| `Grouping.GroupByKeys` | src/piezo_dataset_builder/core/dataset_builder.py:204 | no key tuple repeats in the output; it holds exactly the complete key tuples of the input |
| `Grouping.GroupByValues` | src/piezo_dataset_builder/core/dataset_builder.py:194-204 | each aggregated cell is its function applied to that group's cells of its column |
| `Grouping.GroupByIdempotent` | src/piezo_dataset_builder/core/dataset_builder.py:204 | grouping an already grouped table again changes nothing |
| `Joins.Suffixed` | src/piezo_dataset_builder/core/dataset_builder.py:212 | an overlapping non-key column gets its side's suffix; the others keep their name |
| `Joins.LeftJoin` | src/piezo_dataset_builder/core/dataset_builder.py:208-213 | it succeeds exactly when the merge is joinable (every key on both sides, a suffix for overlapping columns, no clash after suffixing); then every left row appears at least once, under the suffixed names |
| `Joins.LeftJoinUniqueRight` | src/piezo_dataset_builder/core/dataset_builder.py:208-213 | against a right side with unique keys, one output row per left row: the left cells, then the matching right cells, or missing cells when nothing matches |
| `Joins.LeftJoinKeys` | src/piezo_dataset_builder/core/dataset_builder.py:208-213 | against a right side with unique keys, the output keys are the left keys, in order |
| `Joins.LeftJoinDuplicates` | src/piezo_dataset_builder/core/dataset_builder.py:208-213 | two right rows with one left row's key give more output rows than left rows |
| `Sorting.SortValues` | src/piezo_dataset_builder/core/dataset_builder.py:301-302 | the rows come out sorted by (code_bss, date), missing values last, and form a permutation of the input rows |
| `HubEau.Batches` | src/piezo_dataset_builder/api/hubeau.py:167-173 | the batches concatenate back to the codes; each holds 1 to 50 codes; there are ⌈n/50⌉ of them, and none for no code |
| `HubEau.DataRecords` | src/piezo_dataset_builder/api/hubeau.py:188-204 | a failed request, or an answer without `data`, gives no record; every record returned is an object of the `data` list |
| `HubEau.StationRecordsFromBatches` | src/piezo_dataset_builder/api/hubeau.py:172-204 | a record is gathered exactly when some batch's answer lists it; failed batches add nothing and do not stop the others |
| `HubEau.CoordsOf` | src/piezo_dataset_builder/api/hubeau.py:223-229 | a geometry with a `coordinates` list of at least two entries gives (longitude, latitude) = (first, second); anything else gives two missing values |
| `HubEau.WithCoords` | src/piezo_dataset_builder/api/hubeau.py:221-245 | coordinates come from `geometry` when present, else from `x` and `y`, converted to numbers; without either the table is unchanged; no other cell changes |
| `HubEau.GetStations` | src/piezo_dataset_builder/api/hubeau.py:148-245 | no code, no record or no `code_bss` column gives the empty table; otherwise one row per gathered record, in order, with that record's `code_bss` |
| `HubEau.GetStationsCells` | src/piezo_dataset_builder/api/hubeau.py:210-245 | row `i` holds record `i`'s value for every field other than the coordinates, missing where the record lacks it; longitude and latitude are the numeric `geometry` coordinates when some record has `geometry`, else the numeric `x` and `y` when records have both, else the record's own fields |
| `HubEau.GetStationsUsesOnlyBatches` | src/piezo_dataset_builder/api/hubeau.py:158-173 | the result depends only on the answers to the batches actually sent, so an empty list sends nothing |
| `HubEau.ParseDates` | src/piezo_dataset_builder/api/hubeau.py:297-302 | with `date_mesure`, it is parsed to an instant and its calendar day is stored in `date`; without it the table is unchanged |
| `HubEau.GetChroniques` | src/piezo_dataset_builder/api/hubeau.py:247-311 | no data gives the empty table; otherwise one row per record, every `code_bss` set to the requested code, and `date` the day of `date_mesure` |
| `HubEau.PerStation` | src/piezo_dataset_builder/api/hubeau.py:343-346 | every code is asked once, in order |
| `HubEau.GetChroniquesBatch` | src/piezo_dataset_builder/api/hubeau.py:313-371 | the table is the non-empty per-station answers stacked in request order; the successes are the codes whose answer is non-empty and the failures the rest; no success gives the empty table; every row's code is a requested one |
| `HubEau.GetChroniquesBatchRow` | src/piezo_dataset_builder/api/hubeau.py:343-365 | every row of the batch has the cells of a measurement row of one requested station's answer |
| `Meteo.KnownVariables` | src/piezo_dataset_builder/api/meteo.py:176-184 | no list gives precipitation, temperature and evapotranspiration; otherwise the known requested variables in request order, and unknown ones are dropped |
| `Meteo.SplitAsWritten` | src/piezo_dataset_builder/api/meteo.py:118-144 | as written: no chunk when start ≥ end; each chunk has s < e ≤ end; each chunk starts the day after the previous one ends |
| `Meteo.SplitAsWrittenCoversBeforeEnd` | src/piezo_dataset_builder/api/meteo.py:135-142 | as written, every day strictly before the end date lies in some chunk |
| `Meteo.SplitAsWrittenMissesEnd` | src/piezo_dataset_builder/api/meteo.py:135-142 | 2000-01-01 to 2010-01-02 in ten-year steps yields the single chunk ending 2010-01-01, so the last day is never requested |
| `Meteo.SplitDateRange` | src/piezo_dataset_builder/api/meteo.py:118-144 | corrected split: chunks run from start to end exactly, chained day after day |
| `Meteo.SplitDateRangeCovers` | src/piezo_dataset_builder/api/meteo.py:135-142 | every day from start to end, both included, lies in a chunk |
| `Meteo.SplitDateRangeDisjoint` | src/piezo_dataset_builder/api/meteo.py:135-142 | no day lies in two chunks |
| `Meteo.Requests` | src/piezo_dataset_builder/api/meteo.py:190-216 | as written: a short span is one request for the whole range, a long one the chunks of `_split_date_range`; every day before the end date is asked for, and every range stays inside the requested one |
| `Meteo.RequestsMissEnd` | src/piezo_dataset_builder/api/meteo.py:190-201 | 2000-01-01 to 2010-01-02 in ten-year chunks: no request covers 2010-01-02 |
| `Meteo.RequestsCorrected` | src/piezo_dataset_builder/api/meteo.py:190-216 | corrected: every day from start to end, both included, is asked for; a short span is still one request |
| `Meteo.UsesChunksDays` | src/piezo_dataset_builder/api/meteo.py:191-193 | a span is chunked exactly when four times its days exceed 1461 times the chunk years; with ten-year chunks, from 3653 days on |
| `Meteo.ApiNames` | src/piezo_dataset_builder/api/meteo.py:240 | each variable maps to its API series name, in order |
| `Meteo.Present` | src/piezo_dataset_builder/api/meteo.py:279-283 | a requested variable gets a column exactly when the answer holds its series; each once, in the order of first request |
| `Meteo.ChunkTable` | src/piezo_dataset_builder/api/meteo.py:264-288 | a failed request, an answer without `daily.time`, an unreadable time stamp or series of unequal length give the empty table; otherwise the columns are `date` then the present variables in request order, one row per time stamp, `date` the day of each stamp |
| `Meteo.ChunkTableCell` | src/piezo_dataset_builder/api/meteo.py:278-285 | each variable cell is the entry of that variable's series at the row's position |
| `Meteo.GetWeatherData` | src/piezo_dataset_builder/api/meteo.py:146-216 | as written: invalid coordinates or no known variable give the empty table; a short span is the one answer for the whole range; a long span is the non-empty answers to the as-written chunks, stacked in order |
| `Meteo.GetWeatherDataCorrected` | src/piezo_dataset_builder/api/meteo.py:146-216 | corrected: the same, with the long span asked in the corrected chunks |
| `Meteo.Answers` | src/piezo_dataset_builder/api/meteo.py:201-206 | each requested range is fetched once, in order, and its answer read as a table |
| `Meteo.AnswersRowOrigin` | src/piezo_dataset_builder/api/meteo.py:199-211 | every row of the stacked answers is a row of the answer to one of the requests, widened to all columns |
| `Meteo.ValidCoordinatesEdges` | src/piezo_dataset_builder/api/meteo.py:104-116 | the bounds are inclusive (the poles and ±180° pass); 90.5° or -180.5° fails; a text coordinate, even one spelling a number, or a missing one fails |
| `Meteo.LocationData` | src/piezo_dataset_builder/api/meteo.py:350-386 | a location with a missing or non-numeric coordinate is skipped; the kept rows carry the location's coordinates and, when given, its station code |
| `Meteo.LocationDataRow` | src/piezo_dataset_builder/api/meteo.py:366-381 | row `m` of a location's tagged table is row `m` of the data fetched for its coordinates, with the location's latitude, longitude and, when given, station code |
| `Meteo.Contributions` | src/piezo_dataset_builder/api/meteo.py:350-386 | a table is contributed exactly when some location's tagged data is that table; each is non-empty |
| `Meteo.GetWeatherBatch` | src/piezo_dataset_builder/api/meteo.py:318-405 | no location gives the empty table; successes plus failures equal the number of locations, successes the number of contributions; with a success the table is the contributions stacked |
| `Meteo.GetWeatherBatchRowTagged` | src/piezo_dataset_builder/api/meteo.py:350-399 | every row of the batch is a row of the data fetched for one location with numeric coordinates, carrying that location's latitude, longitude and, when given, station code |
| `Era5.KnownVariables` | src/piezo_dataset_builder/api/era5.py:98-109 | no list gives the three defaults; otherwise the known requested variables in order, with unknown ones dropped |
| `Era5.CdsNames` | src/piezo_dataset_builder/api/era5.py:112 | each variable maps to its CDS name, in order |
| `Era5.GetYears` | src/piezo_dataset_builder/api/era5.py:191-193 | the years from the first to the last, both included, ascending, in decimal |
| `Era5.GetYearsRoundTrip` | src/piezo_dataset_builder/api/era5.py:191-193 | reading the year strings back gives the consecutive years, each once |
| `Era5.Around` | src/piezo_dataset_builder/api/era5.py:115-120 | the box lies within the globe and, for a non-negative margin, contains the given extent |
| `Era5.PointArea` | src/piezo_dataset_builder/api/era5.py:115-120 | the ±0.1° box contains every point on the globe it is built for |
| `Era5.BatchArea` | src/piezo_dataset_builder/api/era5.py:269-277 | the ±0.5° box around the extent of all points lies within the globe and contains every point |
| `Era5.Convert` | src/piezo_dataset_builder/api/era5.py:225-232 | precipitation and evapotranspiration are multiplied by 1000 with no sign change; temperature has 273.15 subtracted; missing stays missing |
| `Era5.Applicable` | src/piezo_dataset_builder/api/era5.py:201-219 | the daily variables that are both requested and present, in the fixed order |
| `Era5.AggregateDaily` | src/piezo_dataset_builder/api/era5.py:195-234 | no applicable variable gives the empty table; otherwise one row per day, with `date` then the applicable variables |
| `Era5.AggregateDailyValues` | src/piezo_dataset_builder/api/era5.py:201-232 | each daily cell is the converted sum (precipitation, evapotranspiration) or mean (temperature) over that day's rows |
| `Era5.InWindow` | src/piezo_dataset_builder/api/era5.py:169-172 | a row is kept exactly when its instant lies between start and end, both included |
| `Era5.PointDaily` | src/piezo_dataset_builder/api/era5.py:159-176 | it fails exactly when the extracted table has no `time` column; otherwise it gives a well-formed daily table |
| `Era5.GetWeatherData` | src/piezo_dataset_builder/api/era5.py:74-189 | no known variable, or a failed download, gives the empty table |
| `Era5.LocationDaily` | src/piezo_dataset_builder/api/era5.py:323-361 | a kept location's rows carry its own code (or `loc_i`) and its own coordinates |
| `Era5.Survivors` | src/piezo_dataset_builder/api/era5.py:321-361 | a table is kept exactly when some location's extraction gives it, so a failing location is skipped; at most one table per location, each with `code_station` |
| `Era5.SurvivorsAll` | src/piezo_dataset_builder/api/era5.py:321-361 | with no location failing, one table per location |
| `Era5.SurvivorRowTagged` | src/piezo_dataset_builder/api/era5.py:323-371 | every stacked row carries the code (its own or `loc_i`) and the coordinates of the location it was extracted for |
| `Era5.DefaultCodesDistinct` | src/piezo_dataset_builder/api/era5.py:327 | locations without a code at different positions get different `loc_i` codes |
| `Era5.GetWeatherBatch` | src/piezo_dataset_builder/api/era5.py:236-383 | no location gives the empty table; the call fails exactly when some location lacks numeric coordinates; no known variable gives the empty table |
| `Era5.GetWeatherBatchDownloaded` | src/piezo_dataset_builder/api/era5.py:259-377 | with located points and a known variable: a failed download gives the empty table; otherwise the batch is the stacked tables of the points that did not fail |
| `Era5Local.MapVariables` | src/piezo_dataset_builder/api/era5_local.py:118-131 | the ERA5 names of the known requested variables (or the defaults), each once |
| `Era5Local.NearestIndex` | src/piezo_dataset_builder/api/era5_local.py:175-178 | `argmin(abs(axis - x))`: the index minimises the distance, and no earlier index is as close |
| `Era5Local.Classify` | src/piezo_dataset_builder/api/era5_local.py:161-172 | a location is taken exactly when both coordinates are numbers, both axes are non-empty and both coordinates lie in range; it is skipped only after a numeric latitude met a non-empty axis |
| `Era5Local.LatitudeCheckedFirst` | src/piezo_dataset_builder/api/era5_local.py:167-172 | a latitude outside the grid is skipped whatever the longitude holds, even a text |
| `Era5Local.LocatedNeverRaises` | src/piezo_dataset_builder/api/era5_local.py:161-172 | numeric coordinates and non-empty axes never raise |
| `Era5Local.PointFrame` | src/piezo_dataset_builder/api/era5_local.py:161-189 | a location outside either axis range is skipped; otherwise the rows carry the time, variable and position columns only, with the nearest cell's coordinates (not the station's) and the station code |
| `Era5Local.PointFrameDays` | src/piezo_dataset_builder/api/era5_local.py:146-151 | a location inside the grid yields a table, and every extracted row lies on a requested day |
| `Era5Local.Picked` | src/piezo_dataset_builder/api/era5_local.py:161-189 | one outcome per location: its point table, absent exactly when the location is skipped |
| `Era5Local.Frames` | src/piezo_dataset_builder/api/era5_local.py:157-199 | the values of the per-location outcomes, in order: the tables of the locations not skipped, at most one per location |
| `Era5Local.FramesShape` | src/piezo_dataset_builder/api/era5_local.py:181-189 | every extracted table has the time dimension, the coordinates and the code, and only columns the renaming accepts |
| `Era5Local.FramesAllTaken` | src/piezo_dataset_builder/api/era5_local.py:161-189 | with no location skipped, one table per location |
| `Era5Local.LongNameInjective` | src/piezo_dataset_builder/api/era5_local.py:206-216 | the renaming to `date` and long names never merges two columns |
| `Era5Local.DayBefore` | src/piezo_dataset_builder/api/era5_local.py:220 | every instant moves back one day |
| `Era5Local.DayBeforeDate` | src/piezo_dataset_builder/api/era5_local.py:218-220 | the shifted instant falls on the previous calendar day |
| `Era5Local.Step` | src/piezo_dataset_builder/api/era5_local.py:259-294 | a conversion writes its output column and removes its source column, and touches nothing else |
| `Era5Local.Humidity` | src/piezo_dataset_builder/api/era5_local.py:274-285 | relative humidity is 100 times the ratio of the saturation terms at the dew point and at the temperature |
| `Era5Local.ConvertFirst` | src/piezo_dataset_builder/api/era5_local.py:259-272 | precipitation, temperature and evapotranspiration are converted; other columns stay; the result has temperature exactly when the input had either temperature column |
| `Era5Local.ConvertRest` | src/piezo_dataset_builder/api/era5_local.py:274-294 | humidity from the dew point and the Celsius temperature, wind copied, radiation divided by 10⁶; each source column dropped; every other cell unchanged |
| `Era5Local.Convert` | src/piezo_dataset_builder/api/era5_local.py:258-294 | it fails exactly when the dew point is present and neither temperature column is; otherwise the row count is kept, the columns are the converted names, and every cell follows its formula from the input row |
| `Era5Local.ConvertComposed` | src/piezo_dataset_builder/api/era5_local.py:258-294 | the two halves compose: the columns are the converted names and each cell follows its formula from the input row |
| `Era5Local.AggSpecs` | src/piezo_dataset_builder/api/era5_local.py:296-308 | the aggregated columns present are summed (precipitation, evapotranspiration, radiation) or averaged (temperature, wind, humidity) |
| `Era5Local.Aggregate` | src/piezo_dataset_builder/api/era5_local.py:296-311 | the group columns then the aggregated columns, one row per (station, date, latitude, longitude) |
| `Era5Local.Prepare` | src/piezo_dataset_builder/api/era5_local.py:252-256 | `date` is reduced to its calendar day, and the group columns stay |
| `Era5Local.Process` | src/piezo_dataset_builder/api/era5_local.py:239-313 | the group columns stay; with some aggregated column present, the result has one row per station, day and cell |
| `Era5Local.ProcessFails` | src/piezo_dataset_builder/api/era5_local.py:274-276 | processing fails exactly when the dew point is there and neither temperature column is |
| `Era5Local.ProcessShape` | src/piezo_dataset_builder/api/era5_local.py:296-313 | without an aggregated column the converted table comes back; with one, one row per complete (station, date, latitude, longitude) key of the converted rows |
| `Era5Local.ProcessCell` | src/piezo_dataset_builder/api/era5_local.py:296-311 | each aggregated cell is the daily sum or mean of its column over its group's converted rows |
| `Era5Local.Renamable` | src/piezo_dataset_builder/api/era5_local.py:201-216 | after concatenation and renaming the names stay distinct, and the group columns are present |
| `Era5Local.ShiftedRows` | src/piezo_dataset_builder/api/era5_local.py:201-220 | each shifted row is the stacked row it came from: its instant one day back under `date`, each variable under its long name, code and coordinates unchanged |
| `Era5Local.ShiftedColumns` | src/piezo_dataset_builder/api/era5_local.py:206-216 | the dew point or the 2 m temperature column exists exactly when some extracted table has its short name; no `temperature` column ever does |
| `Era5Local.Assemble` | src/piezo_dataset_builder/api/era5_local.py:201-233 | it fails exactly when processing the renamed, shifted table fails; otherwise its rows are the processed rows, the four group columns come first, and keys are unique once aggregated |
| `Era5Local.AssembleFails` | src/piezo_dataset_builder/api/era5_local.py:201-223 | it fails exactly when some extracted table has `d2m` and none has `t2m` |
| `Era5Local.GetWeatherBatch` | src/piezo_dataset_builder/api/era5_local.py:94-237 | no location or no known variable gives the empty table; a location the loop's checks make raise (`Classify`: an absent coordinate, or a non-numeric coordinate or empty axis reached before any out-of-range skip, the latitude checked first) is an error; output starts with the four group columns |
| `Era5Local.GetWeatherBatchNoGrid` | src/piezo_dataset_builder/api/era5_local.py:158-168 | with an empty latitude axis, a batch with locations and variables fails |
| `Era5Local.GetWeatherBatchFrames` | src/piezo_dataset_builder/api/era5_local.py:157-233 | when nothing raises: empty when every location is skipped, otherwise the assembly of the kept locations' tables |
| `Era5Local.GetWeatherBatchFails` | src/piezo_dataset_builder/api/era5_local.py:157-237 | when nothing raises, the batch fails exactly when a kept table has `d2m` and none has `t2m` |
| `DatasetBuilder.ValidateInputs` | src/piezo_dataset_builder/core/dataset_builder.py:374-396 | success exactly for 1..500 codes and start < end; each rejection carries its own message; a long span is not rejected |
| `DatasetBuilder.StationsData` | src/piezo_dataset_builder/core/dataset_builder.py:400-418 | no data or no `code_bss` gives the empty table; otherwise the same table with numeric coordinates |
| `DatasetBuilder.FilterStations` | src/piezo_dataset_builder/core/dataset_builder.py:115-133 | the columns are an ordered subset that always keeps `code_bss`; it keeps the coordinates when weather is wanted and every column when attributes are wanted without a field list; nothing else |
| `DatasetBuilder.LevelKeep` | src/piezo_dataset_builder/core/dataset_builder.py:156-171 | `code_bss`, `date`, and the existing API columns of the requested fields |
| `DatasetBuilder.FilterLevels` | src/piezo_dataset_builder/core/dataset_builder.py:154-178 | the kept columns in order, the API level column under its UI name, and cells unchanged |
| `DatasetBuilder.FilterLevelsKeeps` | src/piezo_dataset_builder/core/dataset_builder.py:154-178 | the keys are always kept; every requested field the table has comes back under its UI name; an absent field is ignored |
| `DatasetBuilder.DateColumns` | src/piezo_dataset_builder/core/dataset_builder.py:435 | the columns whose lower-cased name contains `date`, in order |
| `DatasetBuilder.LevelsData` | src/piezo_dataset_builder/core/dataset_builder.py:420-441 | without `date`, a day column is derived from the first column whose name mentions a date; otherwise the table is unchanged |
| `DatasetBuilder.Days` | src/piezo_dataset_builder/core/dataset_builder.py:460 | the consecutive days from the start's day |
| `DatasetBuilder.DaysMembers` | src/piezo_dataset_builder/core/dataset_builder.py:460 | a day is in the range exactly when stepping whole days from the start instant reaches it by the end instant |
| `DatasetBuilder.GridCodes` | src/piezo_dataset_builder/core/dataset_builder.py:463-471 | the requested codes, or without any the station table's codes, each once |
| `DatasetBuilder.GridRows` | src/piezo_dataset_builder/core/dataset_builder.py:474-480 | the number of rows is the number of codes times the number of days, and each is the grid row of a given station on a given day |
| `DatasetBuilder.Grid` | src/piezo_dataset_builder/core/dataset_builder.py:474-480 | the bare grid: the two key columns, one row per code and day |
| `DatasetBuilder.GridRowsMembers` | src/piezo_dataset_builder/core/dataset_builder.py:474-480 | a (station, day) row is in the grid exactly when the station and the day are among the inputs |
| `DatasetBuilder.GridUnique` | src/piezo_dataset_builder/core/dataset_builder.py:471-480 | no (code_bss, date) key repeats |
| `DatasetBuilder.CreateGrid` | src/piezo_dataset_builder/core/dataset_builder.py:443-492 | it fails exactly on a `KeyError` or a name clash; otherwise it has at least one row per code and day; an empty station table gives the bare grid |
| `DatasetBuilder.CreateGridKeys` | src/piezo_dataset_builder/core/dataset_builder.py:460-485 | with one attribute row per station and a `code_bss` column (or no attributes and some requested codes), the grid is built, with exactly one row per (station, day), the bare grid's keys, and codes without attributes kept |
| `DatasetBuilder.GridJoinable` | src/piezo_dataset_builder/core/dataset_builder.py:482-485 | station attributes with `code_bss` and without `date` always merge onto the grid |
| `DatasetBuilder.ValueColumns` | src/piezo_dataset_builder/core/dataset_builder.py:195-197 | every column except `code_bss` and `date`, in order |
| `DatasetBuilder.CollapseSpecs` | src/piezo_dataset_builder/core/dataset_builder.py:194-201 | the mean for a numeric column, the first value for any other |
| `DatasetBuilder.Collapse` | src/piezo_dataset_builder/core/dataset_builder.py:194-204 | corrected collapse: fails exactly when a key is missing; otherwise unique keys, with exactly the complete keys of the readings |
| `DatasetBuilder.CollapseValues` | src/piezo_dataset_builder/core/dataset_builder.py:194-204 | each collapsed cell is the mean or the first present value over that station-day's readings |
| `DatasetBuilder.CollapseAsWritten` | src/piezo_dataset_builder/core/dataset_builder.py:203-204 | as written: with no value column the readings pass through uncollapsed |
| `DatasetBuilder.MergeLevels` | src/piezo_dataset_builder/core/dataset_builder.py:208-213 | the grid's columns come first and unchanged, there are at least as many rows, and it succeeds exactly when the merge is joinable |
| `DatasetBuilder.MergeLevelsKeepsGrid` | src/piezo_dataset_builder/core/dataset_builder.py:194-213 | against joinable, collapsed readings the merge goes through and keeps the grid's row count and keys |
| `DatasetBuilder.CollapseAsWrittenRepeatsRows` | src/piezo_dataset_builder/core/dataset_builder.py:203-213 | as written, two key-only readings of one station-day make the merged table longer than the grid |
| `DatasetBuilder.CollapseAsWrittenExample` | src/piezo_dataset_builder/core/dataset_builder.py:203-213 | one station, one day, two readings: the merged table has at least two rows for the one grid row |
| `DatasetBuilder.ValidTriples` | src/piezo_dataset_builder/core/dataset_builder.py:504-517 | the distinct (code, latitude, longitude) triples with both coordinates present |
| `DatasetBuilder.MeteoLocations` | src/piezo_dataset_builder/core/dataset_builder.py:529-535 | one location per valid triple, in order; a `KeyError` when the table has none of the codes |
| `DatasetBuilder.MeteoLocationsLocated` | src/piezo_dataset_builder/core/dataset_builder.py:529-535 | with numeric coordinates, every location passes the local client's coordinate check |
| `DatasetBuilder.PrepareWeather` | src/piezo_dataset_builder/core/dataset_builder.py:551-565 | `code_station` becomes `code_bss` and the coordinates are gone; renaming onto an existing `code_bss` is an error |
| `DatasetBuilder.Dated` | src/piezo_dataset_builder/core/dataset_builder.py:558-559 | every date becomes its calendar day, and the columns and row count are kept |
| `DatasetBuilder.MergeWeather` | src/piezo_dataset_builder/core/dataset_builder.py:555-568 | the left merge of the dated dataset with the prepared weather, keeping every dataset row |
| `DatasetBuilder.MergeWeatherKeepsRows` | src/piezo_dataset_builder/core/dataset_builder.py:555-568 | with one weather row per station-day, each dataset row appears once, in order, with its key and its own day's weather (missing if none) |
| `DatasetBuilder.MergeWeatherCells` | src/piezo_dataset_builder/core/dataset_builder.py:555-568 | with one weather row per station-day, each merged row carries its own station-day's weather cells, missing when there are none |
| `DatasetBuilder.AddMeteo` | src/piezo_dataset_builder/core/dataset_builder.py:494-572 | no coordinates, no located station or no weather leaves the dataset unchanged; a client error passes through with its partial data; otherwise the weather merge |
| `DatasetBuilder.LocalWeather` | src/piezo_dataset_builder/core/dataset_builder.py:538-544 | the local client as the weather source: its errors carry no partial data |
| `DatasetBuilder.StationFrameAsWritten` | src/piezo_dataset_builder/core/dataset_builder.py:137 | as written: one station row per requested code, repeats included |
| `DatasetBuilder.StationFrameAsWrittenRepeatsRows` | src/piezo_dataset_builder/core/dataset_builder.py:484-485 | as written, a code requested twice gives more grid rows than distinct codes times days |
| `DatasetBuilder.StationFrameAsWrittenExample` | src/piezo_dataset_builder/core/dataset_builder.py:484-485 | `["A", "A"]` over two days gives more than two rows |
| `DatasetBuilder.StationFrame` | src/piezo_dataset_builder/core/dataset_builder.py:137 | corrected: the requested codes, each once |
| `DatasetBuilder.StationFrameKeepsGrid` | src/piezo_dataset_builder/core/dataset_builder.py:471-485 | corrected: the grid merge succeeds with exactly one row per distinct code and day |
| `DatasetBuilder.CodesFrame` | src/piezo_dataset_builder/core/dataset_builder.py:136-137 | the codes table holds exactly the requested codes: one row per request as written, each code once corrected |
| `DatasetBuilder.CollapseWith` | src/piezo_dataset_builder/core/dataset_builder.py:194-204 | as written the collapse is skipped without a value column; corrected it always runs |
| `DatasetBuilder.FilterStationsUnique` | src/piezo_dataset_builder/core/dataset_builder.py:115-133 | the column filter keeps station codes unique |
| `DatasetBuilder.StationStage` | src/piezo_dataset_builder/core/dataset_builder.py:106-138 | stations are fetched when attributes or weather are wanted (empty when nothing came back, column-filtered otherwise); otherwise the table of the requested codes, as written or corrected |
| `DatasetBuilder.StationStageUnique` | src/piezo_dataset_builder/core/dataset_builder.py:106-138 | corrected: a non-empty station table has `code_bss`, no `date`, and names each station once |
| `DatasetBuilder.StationStageAgree` | src/piezo_dataset_builder/core/dataset_builder.py:136-137 | with distinct requested codes, the two station tables coincide |
| `DatasetBuilder.LevelStage` | src/piezo_dataset_builder/core/dataset_builder.py:145-178 | the readings, row for row; unchanged without a field list; with one, the keys are kept and every other column is a requested field under its user-facing name |
| `DatasetBuilder.BaseStage` | src/piezo_dataset_builder/core/dataset_builder.py:145-237 | the bare grid unless levels were requested and found; then the collapsed levels merged onto the grid; a grid failure propagates |
| `DatasetBuilder.BareBaseSucceeds` | src/piezo_dataset_builder/core/dataset_builder.py:229-236 | without stations fetched and without levels, the grid step cannot fail |
| `DatasetBuilder.BaseStageKeepsGrid` | src/piezo_dataset_builder/core/dataset_builder.py:180-237 | corrected: step 2 has one row per distinct requested code and day, with exactly the bare grid's keys in its order |
| `DatasetBuilder.Checkpoint` | src/piezo_dataset_builder/core/dataset_builder.py:256-292 | the saved dataset is the pre-weather one, merged with the partial weather when there is some; without partial data it is unchanged |
| `DatasetBuilder.CheckpointKeepsRows` | src/piezo_dataset_builder/core/dataset_builder.py:262-292 | with one partial weather row per station-day, the checkpoint has the dataset's rows, in order, each with its own station code |
| `DatasetBuilder.CheckpointWeather` | src/piezo_dataset_builder/core/dataset_builder.py:262-283 | each checkpoint row carries the partial weather of its own station and day, missing when there is none |
| `DatasetBuilder.WeatherStage` | src/piezo_dataset_builder/core/dataset_builder.py:243-298 | skipped unless weather is wanted and there are coordinates; a failure keeps a checkpoint at least as long as the dataset |
| `DatasetBuilder.DropsCoordinatesCases` | src/piezo_dataset_builder/core/dataset_builder.py:330-346 | no drop without a field list, without weather, with every attribute kept, or with `latitude` among the station fields; weather without attributes and with a field list always drops |
| `DatasetBuilder.Finish` | src/piezo_dataset_builder/core/dataset_builder.py:300-346 | the row count is kept and the keys are only permuted, sorted when there is a date; only latitude and longitude are ever dropped, and exactly when the drop rule holds |
| `DatasetBuilder.SortedKeys` | src/piezo_dataset_builder/core/dataset_builder.py:301-302 | the sort permutes the keys and orders them |
| `DatasetBuilder.DropKeepsKeys` | src/piezo_dataset_builder/core/dataset_builder.py:337-346 | dropping the coordinates keeps every key and the order |
| `DatasetBuilder.RunStages` | src/piezo_dataset_builder/core/dataset_builder.py:106-346 | never a rejection; empty when stations are needed and none came back; a built table is sorted, coordinates dropped per the rule; a weather failure only when weather was wanted; other failures only when levels or stations were fetched |
| `DatasetBuilder.LaterStages` | src/piezo_dataset_builder/core/dataset_builder.py:145-346 | from a non-empty station table: the same guarantees as the whole run |
| `DatasetBuilder.BuildDataset` | src/piezo_dataset_builder/core/dataset_builder.py:56-355 | as written or corrected: rejected exactly when validation fails, with its message; empty when stations are needed and none came back; a built table is sorted, with the coordinates dropped per the rule; a weather failure only when weather was wanted; a processing failure only when levels or stations were fetched |
| `DatasetBuilder.BuildDatasetOneRowPerStationDay` | src/piezo_dataset_builder/core/dataset_builder.py:56-355 | corrected, without weather: a built table holds each (distinct requested code, day) pair exactly once |
| `DatasetBuilder.BuildDatasetAsWrittenRepeats` | src/piezo_dataset_builder/core/dataset_builder.py:108-237 | as written, `["A", "A"]` over two days without attributes, levels or weather builds more than two rows |
| `DatasetBuilder.BuildDatasetVariantsAgree` | src/piezo_dataset_builder/core/dataset_builder.py:106-237 | with distinct requested codes and a value column in any merged readings, the as-written and corrected builders build the same dataset |

## Left out

- HTTP sessions, retries, status codes, time-outs, the `cdsapi` download, temporary files and NetCDF opening. Each is a function parameter whose result is a parsed body, a table or a grid. A failed request is `None`.
- Rate limiting (`GlobalRateLimiter`, `_apply_rate_limit`): it is wall-clock and locking behaviour.
- Logging and the progress callback: neither changes any result.
- Calendar arithmetic. `relativedelta(years=n)` is an abstract strictly increasing `step` on day numbers. `date.year` is passed as the first and last year.
- Floating point: conversions are exact `real` arithmetic. The humidity formula's `exp` is an uninterpreted saturation function `sat`.
- Python string formatting of values (`str(v)`, the `"{lat}_{lon}"` code): a `show` parameter.
- `Era5.AsFloat`, `Meteo.AsFloat`: Python's `float()` also parses numeric strings; here only numbers count as coordinates.
- `Era5Local.Classify`: the local client compares coordinates with the grid directly. A text coordinate raises there, and so it does here; a boolean, which Python compares as a number, has no counterpart in `Value`.
- `Era5Local.GoodFile`: only files whose spatial dimensions are named `latitude` and `longitude` are modelled. With `lat` and `lon` dimensions (era5_local.py:71-73), `to_dataframe()` always emits the selected cell's scalar `lat` and `lon` coordinates, and the rename at era5_local.py:206-212 turns them into a second `latitude` and `longitude` column next to the ones the extraction added. A table with two columns of one name is outside the table model, so that whole configuration is left out; pandas would then very likely fail in the daily group-by (not executed). Within the modelled configuration a cell table may carry only the time dimension, the short variable names and names the pipeline does not create or read itself; extra columns named `time`, `date` or a long or user-facing variable name would be merged by the renames. The names `latitude` and `longitude` are allowed, since the extraction overwrites them.
- `Tables.ToNumeric`: `pd.to_numeric` also parses numeric strings such as `"12.5"`; here every text becomes missing.
- `Tables.ToStamp`: only `YYYY-MM-DD`, optionally followed by `T` or a space and `HH:MM` or `HH:MM:SS`, is parsed. pandas' other forms (fractional seconds, time-zone offsets, `/`-separated or day-first dates, month names, epoch numbers) give missing here.
- The interface between the builder and its weather client. The builder constructs `ERA5Client(api_token=...)`, but that constructor takes no argument. It passes `progress_callback`, which only the local client accepts. No client attaches `partial_data` to its exception. The weather source is therefore the abstract `DatasetBuilder.WeatherSource`, shaped like the local client's `get_weather_batch`, and its error may carry an optional partial table. `DatasetBuilder.LocalWeather` instantiates it with the local client.
- `set(codes_bss)` in the grid has no defined order; the model uses first-seen order.
- pandas sorts `groupby` output by key; the model keeps groups in first-seen order. Every grouped table is only merged or re-grouped by key afterwards, so the order is not observable in the dataset.
- `DatasetBuilder.Finish`: `sort_values` is not stable; the model states sortedness and permutation, not the order among equal keys.
- `DatasetBuilder.NumericColumn` approximates `is_numeric_dtype`: a column counts as numeric when every present cell is a number.
- `DatasetBuilder.AddMeteo`: the weather step writes calendar dates into the caller's table in place before merging. Grid dates are already calendar days, so the model does not track this.
- `_partial_dataset` on a successful build: a side attribute with no effect on the returned table. It is modelled only as the checkpoint of `WeatherFailed`.
- `MAX_DAYS` and `desired_columns` are computed but never used, so they are not modelled. The very-long-span warning only logs.
- The grid's fallback to the station table's codes when no codes are requested: `DatasetBuilder.GridCodes` and `DatasetBuilder.CreateGrid` model it. `build_dataset` never reaches it, because validation rejects an empty code list.
- `Era5.GetWeatherData`: the contract states the empty cases; the content of a successful table is stated through `Era5.AggregateDailyValues` on the extracted window.
- `Era5Local.Assemble`: its cells are stated one stage at a time, through `Era5Local.ShiftedRows`, `Era5Local.ConvertComposed` and `Era5Local.ProcessCell`, not as one formula on the assembled table.
- The Streamlit app, the export helpers and the interactive ERA5 test script: these are not part of this model.

## Findings

| source | as written | input that shows it | evidently intended | confidence | as-written member | corrected member |
|---|---|---|---|---|---|---|
| src/piezo_dataset_builder/api/meteo.py:135-142 | the chunk loop runs while the next start is strictly before `date_fin` | 2000-01-01 to 2010-01-02 with ten-year chunks: the one chunk ends 2010-01-01, and 2010-01-02 is never requested | every day up to and including `date_fin` is requested | high, not executed | `Meteo.SplitAsWritten`, `Meteo.SplitAsWrittenMissesEnd`, `Meteo.Requests`, `Meteo.RequestsMissEnd`, `Meteo.GetWeatherData` | `Meteo.SplitDateRange`, `Meteo.SplitDateRangeCovers`, `Meteo.RequestsCorrected`, `Meteo.GetWeatherDataCorrected` |
| src/piezo_dataset_builder/core/dataset_builder.py:203-213 | the daily collapse runs only when some column besides `code_bss` and `date` exists | level fields that the API does not return leave only the two keys; two readings of one station on one day then make that grid row appear twice | one row per station and day whatever the fields | medium, not executed | `DatasetBuilder.CollapseAsWritten`, `DatasetBuilder.CollapseAsWrittenRepeatsRows`, `DatasetBuilder.CollapseAsWrittenExample` | `DatasetBuilder.Collapse`, `DatasetBuilder.MergeLevelsKeepsGrid`, `DatasetBuilder.CollapseWith`, `DatasetBuilder.BuildDatasetOneRowPerStationDay` |
| src/piezo_dataset_builder/core/dataset_builder.py:137 | without station attributes or weather, the station table is built from the raw code list, repeats included, and merged onto the de-duplicated grid | codes `["A", "A"]`, two days, no attributes and no weather: four rows instead of two | one row per station and day | medium, not executed (callers that pass `extract_station_codes` output never repeat a code) | `DatasetBuilder.StationFrameAsWritten`, `DatasetBuilder.StationFrameAsWrittenRepeatsRows`, `DatasetBuilder.StationFrameAsWrittenExample`, `DatasetBuilder.BuildDatasetAsWrittenRepeats` | `DatasetBuilder.StationFrame`, `DatasetBuilder.StationFrameKeepsGrid`, `DatasetBuilder.BuildDatasetOneRowPerStationDay` |
