# snotel_ccss_stations: record-level model

This project models the record-level logic of two Python tool sets. Both
archive daily snow and weather observations for SNOTEL sites and for
California snow-sensor (CCSS/CDEC) stations, one CSV file per station. The
logic covered is:

- parsing a site's `|`-separated `key=value` comment string (`comments2dict`);
- building a station's daily table from per-variable series. For SNOTEL,
  `construct_daily_dataframe` fetches six series, replaces the -9999
  sentinel by NaN, joins the series (outer join in one tool set, left join
  in the other) and converts Fahrenheit to Celsius and inches to meters.
  For CCSS, `construct_daily_ccss_dataframe` pivots one long answer by
  sensor number, renames and converts the six known sensors, and drops
  all-NaN rows;
- building the CCSS station index in `all_ccss_stations`: the list is sent
  in chunks of 200, and each station gets its earliest and latest reported
  date;
- the two incremental update scripts (`update_csv_files.py`). They extract
  each file's station code, compute the fetch start, and merge the fetched
  rows into the file. The registry-aware script also de-duplicates and moves
  the station's `endDate`.

Modules:

- `Wrappers` (Option);
- `Text` (split and join);
- `Comments`;
- `Frames`: the data model, a table of optional cells keyed by column and
  date, with the outer join, the left join and column edits;
- `DailyTable`;
- `CcssTable`;
- `StationIndex`;
- `Archive`: the rules for one archived file;
- `Registry`;
- `StationUpdate`: `snotel_ccss_stations/update_csv_files.py`, as the class
  `StationArchive`;
- `SiteUpdate`: `snotel_tools/update_csv_files.py`, as the class
  `SiteArchive`.

Each loop of the source is a method whose `ensures` ties it to a pure
function. Each batch loop is a method of a class that holds the archive
(and, for `StationArchive`, the registry) as fields. Its result is the
pure `Run` function, and the batch's properties are lemmas about `Run`.

Several external inputs are parameters:

- the web services, including whether `get_site_info` answers;
- the unit conversions (`toCelsius`, `toMeters`);
- the builder calls of the update scripts;
- the list of archive files.

Dates are day numbers (`int`). Values are `real`, with NaN as `None`.

Three behaviours of the code that are easy to misread:

- **Duplicates are compared by cells, not by date.**
  `drop_duplicates(keep='last')` compares whole rows of values and ignores
  the date (the CSV index). So a later day with the same readings as an
  earlier one removes the earlier day (`SameCellsOnTwoDatesLoseOne`). A
  re-fetched day whose values changed is kept twice, under one date
  (`ChangedRowsOnOneDateBothKept`).
- **The `endDate` write is unconditional.** It can move the date back
  (`EndDateCanMoveBack`). The date written is the day after the
  third-to-last persisted row, so it trails the data on file
  (`EndDateTrailsData`).
- **Unparseable `DATE TIME` text aborts the index build.** In
  `all_ccss_stations`, `pd.to_datetime` is called with its default
  `errors='raise'`. So unparseable text makes the build fail (`None`).
  Only empty cells (NaT) are dropped.

## Model

| member | source | states |
|---|---|---|
| Text.Split | snotel_ccss_stations/snotel_ccss_stations.py:25 | `str.split(sep)` yields at least one piece, none containing `sep`, more than one exactly when `sep` occurs, and the pieces re-join to the input |
| Text.SplitJoin | snotel_ccss_stations/snotel_ccss_stations.py:25-27 | splitting a join of separator-free pieces gives the pieces back |
| Comments.KeyValueLayout | snotel_ccss_stations/snotel_ccss_stations.py:26-27 | `x.split('=')[0]` and `[1]` are the `=`-free texts before the first `=` and between the first and the second |
| Comments.ZipDict | snotel_ccss_stations/snotel_ccss_stations.py:28 | `dict(zip(keys, vals))` has exactly the keys given, and each key maps to the value of its last occurrence |
| Comments.Comments2Dict | snotel_ccss_stations/snotel_ccss_stations.py:24-29 | fails exactly when some `|`-piece has no `=` (the IndexError); otherwise its keys are the pieces' keys, each mapped to the value of the last piece with that key; the nested copy in `snotel_tools/snotel_tools.py` (lines 29-34) is the same function |
| Comments.EmptyCommentFails | snotel_ccss_stations/snotel_ccss_stations.py:25-27 | the empty comment is one piece without `=`, so the parse fails |
| Comments.PieceWithoutValueFails | snotel_ccss_stations/snotel_ccss_stations.py:27 | one piece without `=` anywhere makes the whole parse fail |
| Comments.ParseBuiltComment | snotel_ccss_stations/snotel_ccss_stations.py:24-29 | a comment built from `key=value` pairs parses back to each key's last value |
| Frames.SortedSet | snotel_ccss_stations/snotel_ccss_stations.py:159 | the index of an outer join has exactly the dates given |
| Frames.SortedSetIncreasing | snotel_ccss_stations/snotel_ccss_stations.py:159 | that index is strictly increasing, so sorted and duplicate-free |
| Frames.SortedSetIdempotent | snotel_ccss_stations/snotel_ccss_stations.py:159 | sorting a sorted index again changes nothing |
| Frames.IncreasingUnique | snotel_ccss_stations/snotel_ccss_stations.py:159 | two increasing sequences with the same dates are equal |
| Frames.InsertUniqueIncreasing | snotel_ccss_stations/snotel_ccss_stations.py:159 | inserting a date into an increasing index keeps it increasing |
| Frames.MapSeries | snotel_ccss_stations/snotel_ccss_stations.py:169 | `tmp /= 39.3701`: the same dates, each value converted and NaN kept |
| Frames.SingleColumn | snotel_ccss_stations/snotel_ccss_stations.py:153 | `to_frame()`: one column under the given label, the series' index, each cell the series' value |
| Frames.Convert | snotel_ccss_stations/snotel_ccss_stations.py:162 | elementwise arithmetic on the table keeps its columns and its index |
| Frames.ConvertedColumn | snotel_ccss_stations/snotel_ccss_stations.py:304-308 | the converted column holds `g` of each present cell of the source column, NaN where that cell is NaN, and no date outside the index |
| Frames.Join | snotel_ccss_stations/snotel_ccss_stations.py:159 | `df.join(tmp, how=...)` adds the new column after the others; the outer index is the sorted union of both indices, the left one is the table's own index |
| Frames.JoinCells | snotel_tools/snotel_tools.py:135 | after a join, old columns keep their cells and the new column holds the series' value at each kept date, NaN where the series has none |
| Frames.ConvertCells | snotel_ccss_stations/snotel_ccss_stations.py:162 | a whole-table conversion applies the conversion to each present cell and leaves NaN as NaN |
| Frames.RemoveAppend | snotel_ccss_stations/snotel_ccss_stations.py:309 | dropping a column label distributes over concatenated column lists |
| Frames.AddColumn | snotel_ccss_stations/snotel_ccss_stations.py:304 | assigning a new column appends its label, keeps the index and every other cell, and stores the given cells |
| Frames.DropColumn | snotel_ccss_stations/snotel_ccss_stations.py:309 | `df.drop(col)` removes exactly that label and its cells, and keeps every other cell |
| Frames.Rows | snotel_ccss_stations/update_csv_files.py:48 | the written rows are one per index date, each holding the table's cells in column order |
| DailyTable.ColumnOfCode | snotel_ccss_stations/snotel_ccss_stations.py:157 | every variable code ends in `_D`, and `var[:-2]` is its column name |
| DailyTable.SnotelFetch | snotel_ccss_stations/snotel_ccss_stations.py:135 | `.replace(-9999, np.nan)`: same dates; a value becomes NaN exactly when it equals the sentinel, and is kept otherwise; the same as line 110 of `snotel_tools/snotel_tools.py` |
| DailyTable.FirstColumn | snotel_ccss_stations/snotel_ccss_stations.py:151-153 | the table of TAVG alone is the started table of the join loop |
| DailyTable.JoinNext | snotel_ccss_stations/snotel_ccss_stations.py:155-159 | joining the next variable keeps every column's cells equal to its normalized value, and grows the outer index to the union of the fetched dates |
| DailyTable.JoinNextIndex | snotel_ccss_stations/snotel_ccss_stations.py:159 | after an outer join the index holds exactly the dates of the series fetched so far |
| DailyTable.ConvertTemperatures | snotel_ccss_stations/snotel_ccss_stations.py:162 | `(df - 32) * 5/9` converts the three temperature columns once, before any length column is joined |
| DailyTable.CompleteShape | snotel_tools/snotel_tools.py:135-146 | the finished table has the six columns in order; its index is increasing for outer joins and is TAVG's index for left joins |
| DailyTable.JoinVariables | snotel_ccss_stations/snotel_ccss_stations.py:155-170 | a join loop succeeds exactly when every fetch answers with at least one date (an empty answer has no `datetime` column, and `snotel_fetch` raises at line 132), and then extends the table as described |
| DailyTable.ConstructDailyDataframe | snotel_ccss_stations/snotel_ccss_stations.py:145-174 | succeeds exactly when the opening `get_site_info` call answers and all six fetches answer with at least one date. The table then has the six columns and the sorted union of their dates. Each cell is its variable's value at that date, NaN when absent or equal to the sentinel, converted to Celsius or meters. With `kind == Left` it is the builder of `snotel_tools/snotel_tools.py` (lines 120-150), whose index is exactly TAVG's dates. |
| CcssTable.ValueAt | snotel_ccss_stations/snotel_ccss_stations.py:298 | a pivoted value comes from a reading with that date and sensor, and with unique keys it equals every such reading |
| CcssTable.Pivot | snotel_ccss_stations/snotel_ccss_stations.py:298 | `unstack` fails exactly when a (date, sensor) key repeats; otherwise its index is the sorted readings' dates and its columns the sorted sensor numbers |
| CcssTable.PivotCells | snotel_ccss_stations/snotel_ccss_stations.py:298 | each pivoted cell is the value read at its date and sensor |
| CcssTable.Kept | snotel_ccss_stations/snotel_ccss_stations.py:302-309 | after `i` rename steps, the untouched columns are those that are not among the first `i` sensor numbers |
| CcssTable.KeptNoneWhenAllRenamed | snotel_ccss_stations/snotel_ccss_stations.py:302-311 | when every sensor present is one of the six, no sensor-number column remains |
| CcssTable.RenameOne | snotel_ccss_stations/snotel_ccss_stations.py:303-311 | one rename step keeps the table well formed and its index unchanged |
| CcssTable.RenameOneCell | snotel_ccss_stations/snotel_ccss_stations.py:303-311 | one step stores the converted sensor column under its name (or NaN when the sensor is missing) and changes no other column |
| CcssTable.RenameSensorColumns | snotel_ccss_stations/snotel_ccss_stations.py:302-311 | after the loop: the untouched sensor columns, then the six named columns. Each named column holds its sensor's values, converted, and the rest is unchanged. |
| CcssTable.RowsWithValue | snotel_ccss_stations/snotel_ccss_stations.py:313 | a date is kept exactly when it is in the index and its row holds some value |
| CcssTable.RowsWithValueIncreasing | snotel_ccss_stations/snotel_ccss_stations.py:313 | dropping rows keeps the index sorted |
| CcssTable.DropAllAbsent | snotel_ccss_stations/snotel_ccss_stations.py:313 | `dropna(how='all')` keeps exactly the dates whose row holds some value, in order, with cells unchanged |
| CcssTable.ConstructDailyCcssDataframe | snotel_ccss_stations/snotel_ccss_stations.py:291-313 | fails exactly when a (date, sensor) key repeats. Otherwise the index is sorted and holds exactly the days with a numeric reading. Each named column holds its sensor's converted value. |
| CcssTable.MissingSensorIsAbsent | snotel_ccss_stations/snotel_ccss_stations.py:310-311 | a sensor no reading carries gives a named column that is NaN on every date |
| CcssTable.CcssRows | snotel_ccss_stations/snotel_ccss_stations.py:313 | a day is a row exactly when some reading on it has a numeric value |
| StationIndex.Chunks | snotel_ccss_stations/snotel_ccss_stations.py:239-240 | the chunks concatenate back to the list, none is empty or longer than 200, all but the last are full, and there are ceil(n/200) |
| StationIndex.ChunkIsSlice | snotel_ccss_stations/snotel_ccss_stations.py:240 | chunk `i` is exactly `s[200*i : 200*(i+1)]` |
| StationIndex.StationsParam | snotel_ccss_stations/snotel_ccss_stations.py:246 | `",".join(chunk.index)`: for a non-empty chunk of comma-free codes, the `Stations` parameter splits back into the chunk's codes |
| StationIndex.Flatten | snotel_ccss_stations/snotel_ccss_stations.py:256 | `pd.concat`: every row of every answer is a row of the whole, and every row of the whole comes from some answer |
| StationIndex.CollectTimes | snotel_ccss_stations/snotel_ccss_stations.py:242-256 | fails exactly when there is no chunk (`pd.concat([])` raises) or some chunk's request or `read_csv` raises (nothing catches it); otherwise the collected answers are the per-chunk answers concatenated in order |
| StationIndex.Dated | snotel_ccss_stations/snotel_ccss_stations.py:259 | `dropna(subset='datetime')` keeps exactly the rows with a date |
| StationIndex.MinMax | snotel_ccss_stations/snotel_ccss_stations.py:260 | each station with a dated row gets bounds that are reported dates and enclose all its dates |
| StationIndex.StartAndEndDates | snotel_ccss_stations/snotel_ccss_stations.py:258-260 | fails exactly when some `DATE TIME` text cannot be parsed; otherwise each station's (beginDate, endDate) is its earliest and latest date |
| StationIndex.AttachBounds | snotel_ccss_stations/snotel_ccss_stations.py:261 | the join keeps every station in order and gives bounds exactly to those that have some |
| StationIndex.BoundsOrdered | snotel_ccss_stations/snotel_ccss_stations.py:260-261 | every attached beginDate is at most its endDate, and is a date the service reported |
| Archive.ExtractCode | snotel_ccss_stations/update_csv_files.py:24-25 | `re.search(r"/(?P<filename>[^/.]+)\.", fn).group('filename')`: none exactly when no position matches, otherwise the run at the leftmost match; the code is non-empty and free of `/` and `.` |
| Archive.ExtractFromArchivePath | snotel_tools/update_csv_files.py:21-22 | a path `dir/CODE.ext` yields `CODE` |
| Archive.NetworkOf | snotel_ccss_stations/update_csv_files.py:36-39 | three-character codes are CCSS stations, all others SNOTEL |
| Archive.CcssFetchStart | snotel_ccss_stations/update_csv_files.py:33-34 | `index[-3] + 1 day`; none when the file holds fewer than three rows |
| Archive.CcssWindowRecoversTwo | snotel_ccss_stations/update_csv_files.py:33-34 | on a sorted file, the window covers exactly its last two persisted dates |
| Archive.ToolsFetchStart | snotel_tools/update_csv_files.py:28-29 | `index[-1] + 1 day`; none for a file without rows |
| Archive.ToolsWindowAfterAll | snotel_tools/update_csv_files.py:28-29 | on a sorted file, the window starts after every persisted date |
| Archive.DropDuplicatesKeepLast | snotel_ccss_stations/update_csv_files.py:45 | `drop_duplicates(keep='last')`: an order-keeping subsequence with distinct cells and exactly the same cell values. It holds every row that is the last with its cells, and only those. |
| Archive.DedupAtLastPositions | snotel_ccss_stations/update_csv_files.py:45 | the result is exactly the rows at the positions `LastPositions` lists, in that order, which fixes the order of the survivors |
| Archive.LastPositionsExact | snotel_ccss_stations/update_csv_files.py:45 | a position is listed exactly when its row is the last with its cells |
| Archive.LastPositionsIncreasing | snotel_ccss_stations/update_csv_files.py:45 | the positions are listed in increasing order |
| Archive.UniqueCellsPairwise | snotel_ccss_stations/update_csv_files.py:45 | after de-duplication no two rows carry equal cells |
| Archive.DedupOfUnique | snotel_ccss_stations/update_csv_files.py:45 | rows with distinct cells are left unchanged |
| Archive.DedupIdempotent | snotel_ccss_stations/update_csv_files.py:45 | de-duplicating twice is de-duplicating once |
| Archive.SameCellsOnTwoDatesLoseOne | snotel_ccss_stations/update_csv_files.py:45 | two days with equal readings collapse to the later day |
| Archive.ChangedRowsOnOneDateBothKept | snotel_ccss_stations/update_csv_files.py:45 | a day re-fetched with changed readings is kept twice |
| Archive.SurvivorsInOrderOfLastOccurrence | snotel_ccss_stations/update_csv_files.py:45 | survivors come in the order of their last occurrences: `[Y, Z, Y, Z']` becomes `[Z, Y, Z']` |
| Registry.SetEndDate | snotel_ccss_stations/update_csv_files.py:51 | `loc[code == c, 'endDate'] = t`: records of that code get endDate t with other fields kept; other records and the order are unchanged |
| Registry.SetEndDateNoMatch | snotel_ccss_stations/update_csv_files.py:51 | a code with no record leaves the registry unchanged |
| Registry.SetEndDateLastWins | snotel_ccss_stations/update_csv_files.py:51 | two writes for one station leave the second date |
| Registry.SetEndDateCommutes | snotel_ccss_stations/update_csv_files.py:51 | writes for different stations commute |
| Registry.EndDateCanMoveBack | snotel_ccss_stations/update_csv_files.py:51 | the write is unconditional: endDate can decrease |
| StationUpdate.BuilderFor | snotel_ccss_stations/update_csv_files.py:36-39 | the CCSS builder for three-character codes, the SNOTEL builder otherwise |
| StationUpdate.StepOutcome | snotel_ccss_stations/update_csv_files.py:24-56 | one iteration aborts exactly when the name has no code. It skips exactly when the file is missing, has fewer than three rows, or the builder fails. Otherwise the file becomes the de-duplicated old plus new rows, from `index[-3] + 1`. |
| StationUpdate.StationArchive.UpdateAll | snotel_ccss_stations/update_csv_files.py:20-56 | the loop ends in the state and abort flag of `Run` |
| StationUpdate.RunAbortsIff | snotel_ccss_stations/update_csv_files.py:24-25 | the batch stops early exactly when some file name has no station code |
| StationUpdate.RunStopsAt | snotel_ccss_stations/update_csv_files.py:24-25 | it stops at the first such name, in the state the earlier files produced |
| StationUpdate.After | snotel_ccss_stations/update_csv_files.py:42-52 | an update rewrites the file to the de-duplicated rows and sets the station's `endDate`, and nothing else changes: no file is added or removed, other files and other stations' records stay, and the registry keeps its length; a skip changes nothing |
| StationUpdate.Run | snotel_ccss_stations/update_csv_files.py:20-56 | the batch adds or removes no file and keeps the registry's length |
| StationUpdate.RunUntouched | snotel_ccss_stations/update_csv_files.py:20-56 | files not in the batch and records no file name carries stay unchanged |
| StationUpdate.UpdatedFileUnique | snotel_ccss_stations/update_csv_files.py:42-48 | a rewritten file has distinct cells and only rows that were on file or fetched |
| StationUpdate.EndDateTrailsData | snotel_ccss_stations/update_csv_files.py:34-51 | the endDate written lies after the third-to-last persisted date and no later than the last two |
| SiteUpdate.StepOutcome | snotel_tools/update_csv_files.py:19-36 | one iteration aborts exactly when the name has no code. It skips exactly when the file is missing or empty, or the builder fails. Otherwise it appends the builder's rows from `index[-1] + 1`. |
| SiteUpdate.SiteArchive.UpdateAll | snotel_tools/update_csv_files.py:19-36 | the loop ends in the files and abort flag of `Run` |
| SiteUpdate.After | snotel_tools/update_csv_files.py:33 | an append puts the fetched rows after the file's old rows, and nothing else changes; a skip changes nothing |
| SiteUpdate.Run | snotel_tools/update_csv_files.py:19-36 | the batch is append-only: no file is added or removed, and every file keeps its old rows as a prefix |
| SiteUpdate.RunUntouched | snotel_tools/update_csv_files.py:19-36 | files not in the batch stay unchanged |
| SiteUpdate.AppendAddsFetched | snotel_tools/update_csv_files.py:33 | an append adds exactly the fetched rows at the end |
| SiteUpdate.AppendKeepsOrder | snotel_tools/update_csv_files.py:28-33 | a sorted file stays sorted when the answer is sorted and starts at the requested day |

## Left out

- Web services are parameters: `ulmo.cuahsi.wof.get_values` becomes the per-variable `fetch`, and the CDEC CSV service becomes the `readings` and the chunk `fetch`. File reads and writes (`read_csv`, `to_csv`, `gpd.read_file`, `to_file`) and `glob` are left out too. The archive is a map from file name to rows, the file list is a sequence, and the registry is a sequence of records.
- `DailyTable.ConstructDailyDataframe`: the answer of `get_site_info` is modelled only as whether the call answers (`siteInfo`); the list `daily_vars` built from it is never used afterwards and is not modelled.
- `today` and `end_date` are folded into the fetch and builder parameters. The window's end is not modelled.
- `(df - 32) * 5/9` and `/ 39.3701` are the parameters `toCelsius` and `toMeters`. Floating-point arithmetic and `astype('float32')` are not modelled; values are reals.
- Timestamps are day numbers. `pd.to_datetime(..., utc=True)` and `tz_localize(None).normalize()` are not modelled, nor is a collision of two timestamps on one day.
- `pd.to_numeric` parsing: SNOTEL values arrive as numbers, and CCSS values arrive already coerced (`None` for text that does not parse). In the source only the six named sensors go through `pd.to_numeric(errors='coerce')` (line 304). A column for any other sensor reaches `astype('float32')` (line 313) as it came, and text in it (such as `---`) makes the build raise. The model keeps such a column as a table with coerced values. This can happen only when the service answers with a sensor it was not asked for (the request at line 274 names the six).
- `CcssTable.ConstructDailyCcssDataframe`: the readings are the parsed answer of the CDEC request. A `requests.get` that raises (line 282) is not modelled. Readings arrive with their dates already parsed. A `DATE TIME` that `pd.to_datetime` cannot parse makes `ccss_fetch` raise (line 286), and that failure is not modelled; neither is a CSV answer so malformed that `read_csv` raises.
- `DailyTable.ConstructDailyDataframe`: a `snotel_fetch` that raises is a failed fetch (`None`). Its `print` after `raise` is unreachable and left out.
- The update scripts' builders are function parameters. Their results are not tied to the builder models of `DailyTable` and `CcssTable`, because the network answers behind them are free inputs.
- `to_csv(fn, header=False)` rewrites the file without its header row, so the next `read_csv(index_col=0)` reads the first data row as the header. The model assumes the rows read back are the rows written.
- `existing_data.append(new_data)` aligns columns by name. The model assumes both sides hold the same columns in the same order.
- The registry is read from `all_stations.geojson` at the top of each iteration and written back after each update. The model keeps it in memory, which is the same as long as the file round-trips.
- `all_snotel_stations`/`all_snotel_sites`, `sort_closest_*`, `get_variables`, `download_*`, the MGRS, HUC and mountain-range lookups, and the HTML scraping of `all_ccss_stations` are outside the record-level core.
- All `print` output is left out.
