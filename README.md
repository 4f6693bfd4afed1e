# covid_19 dashboard: data preparation, in Dafny

The dashboard (`scr/covid_19.py`) loads three Johns Hopkins series files (confirmed
cases, deaths, recoveries). Each file has one row per province and one `M/D/YY`
column per date. The dashboard turns the files into two smaller tables:

- a choropleth map of one day's confirmed cases per country, drawn through
  `json_data`;
- a bar plot of one country's three series over time, drawn from a frame that
  merges the three series.

This project models the data side of that pipeline on values:

- `clean_data_frame`: drops the metadata columns and sums the provinces of each
  country. It returns a tidy `(country, variable, value)` table and a
  date-indexed table with one column per country.
- `date_formatter`: turns the slider's `MM/DD/YYYY` rendering into a series label.
- `json_data`, as a table: the left join of the geometry table with one day's
  tidy rows, where unmatched rows get `"No data"`.
- The merge in `main`: the three date-indexed tables are outer-joined on their
  date labels and re-indexed by timestamps. The frame gets `left`/`right` bar
  bounds half a day either side of each date, and its labels are cleaned of
  spaces.
- The column lookup of `update_bar_plot_source`.
- The constants these steps use (`scr/covid_19_constants.py`).

The modules follow the layout of the program:

- `Results`: `Option`, `Result` and the Python errors the code can raise.
- `Strings`: split, join, replace, lexicographic order, sorted distinct lists.
- `Constants`: the data-frame constants.
- `Dates`: calendar dates, `strftime`, `date_formatter` and the label parse of
  `pd.to_datetime`.
- `Reshape`: `clean_data_frame`.
- `GeoJoin`: `json_data` and its callers.
- `Merge`: the bar-plot frame and its column lookup.

Pandas behaviour is written out where the program depends on it, as pandas 1.x
(the series of 2020, contemporary with the code) behaves:

- `groupby(...).sum()` sorts the keys, drops rows that have no key, and counts NaN as 0.
- `merge(how='left')` keeps the left rows in order, with one row per match.
- `merge(how='outer', left_index=True, right_index=True)` follows `Index.union`.
  If one side is empty, or both sides are equal, that side's index is kept.
  Otherwise the index is the sorted union of both. (pandas 2.x changed how
  outer merges order their result; the model states no order.) Labels that both sides
  have get the suffixes, and the second merge uses pandas' defaults `_x`/`_y`.
- `df[name] = values` overwrites every column of that name, or appends one.
- `df[list]` raises `KeyError` when a key is not a column.

`coco.convert`, the country-name converter, is an uninterpreted parameter
`convert: string -> string`. The geometry of the shapefile is a type parameter `G`.

## Model

| member | source | states |
|---|---|---|
| Dates.DateFormatter | scr/covid_19.py:67-78 | succeeds exactly when the string has at least three `/`-separated parts; otherwise fails with IndexError |
| Dates.DateFormatterParts | scr/covid_19.py:67-78 | the result has as many parts as the input and parts after the third are unchanged; a leading `0` of part 0 or 1 leaves only its last character; part 2 loses its first two characters |
| Dates.DateFormatterOfStrftime | scr/covid_19.py:105 | formatting a `%m/%d/%Y` rendering of any valid four-digit-year date gives that date's `M/D/YY` series label |
| Dates.DateFormatterNotIdempotent | scr/covid_19.py:76 | formatting a label a second time drops the rest of its year (`1/5/20` becomes `1/5/`), so the formatter is not idempotent |
| Dates.DateFormatterExamples | scr/covid_19.py:67-78 | `01/05/2020` becomes `1/5/20`; `1/5/20` becomes `1/5/` |
| Dates.Strftime | scr/covid_19.py:105 | the `%m/%d/%Y` rendering of a four-digit-year date is 10 characters long |
| Dates.Label | scr/covid_19.py:271 | a series label is at most 8 characters long; `LabelRoundTrip` states that it parses back to its date |
| Dates.MidnightHours | scr/covid_19.py:271 | the timestamp of a date's midnight; `NextDayHours` and `SliderStart` state its values |
| Dates.ParseLabel | scr/covid_19.py:271 | a parsed label is a valid calendar date in 2000-2099 |
| Dates.LabelRoundTrip | scr/covid_19.py:271 | parsing the label of any valid date in 2000-2099 gives that date back |
| Dates.ParseLabelShort | scr/covid_19.py:271 | a label that parses is at most 8 characters, so it never equals a 10-character `%m/%d/%Y` rendering |
| Dates.NextDayHours | scr/covid_19.py:274-275 | within a month, the next day's midnight is exactly 24 hours later |
| Dates.SliderStart | scr/covid_19_constants.py:14-17 | the slider's start date 2020-01-22 is valid; it renders as `01/22/2020`, formats to the first series label `1/22/20`, and is day 18283 of the epoch |
| Reshape.DropColumns | scr/covid_19.py:40-41 | a column is kept exactly when it was present and is not one of the dropped labels; the number of rows is unchanged |
| Reshape.GroupBySum | scr/covid_19.py:43 | KeyError(`Country/Region`) exactly when that column is missing; otherwise the groups are strictly sorted and every row has one count per remaining column |
| Reshape.GroupedSums | scr/covid_19.py:40-43 | after dropping and grouping, the date columns are the loaded columns minus metadata and country, in order; a name is a group exactly when some loaded row carries it; each count equals that date's column sum over the loaded rows of that name |
| Reshape.ConvertCountries | scr/covid_19.py:44 | each group's name is replaced by its converted name; counts and order are unchanged |
| Reshape.Melt | scr/covid_19.py:52-54 | the tidy table has one row per (date, country) pair; its contents are stated by `MeltPairs` and `MeltShape` |
| Reshape.MeltPairs | scr/covid_19.py:52-54 | the tidy table has one row per (date, country) pair; the row at `j·n + i` is country `i`, date `j` and that count |
| Reshape.MeltShape | scr/covid_19.py:52-54 | every tidy row `k` is the pair (country `k mod n`, date `k div n`): the table is date-major |
| Reshape.DateIndexed | scr/covid_19.py:46-50 | rectangular, indexed by the date columns, one column per group; its cells are stated by `DateIndexedCells` |
| Reshape.DateIndexedCells | scr/covid_19.py:46-50 | the transposed table is indexed by the date labels and has the countries as columns; the header row is removed, so only counts remain |
| Reshape.DateIndexedIsTransposedMelt | scr/covid_19.py:46-54 | the date-indexed table and the tidy table hold the same counts: cell `[d][c]` equals the value of tidy row `d·n + c`, which is the row for that same country and date |
| Reshape.Tables | scr/covid_19.py:44-54 | the date-indexed table is rectangular, indexed by the group dates, one column per group; the tidy table has one row per (date, group) pair |
| Reshape.TablesCell | scr/covid_19.py:44-54 | converted group `c` and date `d` meet in tidy row `d·n + c` and in cell `[d][c]`, both holding the group's count |
| Reshape.CleanDataFrame | scr/covid_19.py:39-56 | fails exactly when the loaded frame has no country column |
| Reshape.CleanDataFrameSpec | scr/covid_19.py:39-56 | the whole function in terms of the loaded frame: no metadata column remains; the keys are sorted and distinct; the tidy table has one row per (date, key) pair, date-major; every cell of both tables equals the source sum for its country and date |
| GeoJoin.DateRows | scr/covid_19.py:83 | the rows kept are exactly the tidy rows of the selected date; a date no row has gives none |
| GeoJoin.Matches | scr/covid_19.py:84-87 | the matches of a key are exactly the right rows of that country |
| GeoJoin.DateRowsMultiset | scr/covid_19.py:83 | each row of the date appears in the filtered rows as often as in the tidy table, and no other row appears |
| GeoJoin.MatchesMultiset | scr/covid_19.py:84-87 | each right row of the country appears among the matches as often as in the right table, and no other row appears |
| GeoJoin.JoinOne | scr/covid_19.py:84-87 | a geometry row gives one result row per match, or a single row when it has none; every one carries that geometry |
| GeoJoin.LeftJoin | scr/covid_19.py:84-87 | the left join has at least one row per geometry row; its rows are stated by `LeftJoinKeepsGeometry`, `LeftJoinRows` and `LeftJoinUniqueRows` |
| GeoJoin.Snapshot | scr/covid_19.py:82-88 | the snapshot of a date has at least one row per geometry row; its values are stated by `SnapshotValues` |
| GeoJoin.LeftJoinKeepsGeometry | scr/covid_19.py:84-87 | no geometry row is lost or invented, and the result has at least as many rows as the geometry table |
| GeoJoin.LeftJoinRows | scr/covid_19.py:84-88 | every result row is either unmatched with "No data", and no right row has its country, or joined with a right row of its country |
| GeoJoin.JoinOneRows | scr/covid_19.py:84-88 | one geometry row gives at least one result row, and each carries that geometry |
| GeoJoin.LeftJoinUnique | scr/covid_19.py:84-87 | with at most one right row per country, the result has exactly one row per geometry row, in order |
| GeoJoin.LeftJoinUniqueRows | scr/covid_19.py:84-88 | with unique countries, row `i` is geometry row `i` joined with its country's row, or unmatched when none exists |
| GeoJoin.SnapshotValues | scr/covid_19.py:82-88 | with one tidy row per (country, date), the snapshot keeps every geometry row in order; a row's value is that date's count when one exists and "No data" exactly when none does |
| GeoJoin.MeltUniquePairs | scr/covid_19.py:52-54 | melting groups with distinct names and distinct date columns gives one tidy row per (country, date) |
| GeoJoin.CleanTidyUnique | scr/covid_19.py:39-56 | when the converted names are distinct, the tidy table of `clean_data_frame` has one row per (country, date), which is the requirement of `SnapshotValues` |
| GeoJoin.SnapshotOfAbsentDate | scr/covid_19.py:82-88 | a date no tidy row has gives every geometry row unmatched |
| GeoJoin.MapSource | scr/covid_19.py:97-106 | the slider callback always gets a snapshot, with at least one row per geometry row |
| GeoJoin.MapSourceUsesLabel | scr/covid_19.py:97-106 | the slider's snapshot is the snapshot of the date's own series label |
| GeoJoin.InitialSnapshotIsEmpty | scr/covid_19.py:200-201 | the start-up snapshot, given the unformatted `%m/%d/%Y` date, matches no series label, so every country shows "No data" |
| Merge.AddSuffix | scr/covid_19.py:261 | every column label gets the suffix; index and cells are unchanged |
| Merge.OuterJoin | scr/covid_19.py:262-269 | rectangular, with distinct labels, and with the columns of both sides; its index, columns and cells are stated by `OuterJoinIndex`, `OuterJoinColumns` and `OuterJoinCellAt` |
| Merge.UnionIndex | scr/covid_19.py:262-269 | the joined index has no repeats and holds exactly the labels of either side |
| Merge.OuterJoinCellAt | scr/covid_19.py:262-269 | the joined cell at any label is that side's cell there, or NaN when the side lacks the label |
| Merge.OuterJoinIndex | scr/covid_19.py:262-269 | the joined index is the union of both indices, no longer than both together |
| Merge.OuterJoinColumns | scr/covid_19.py:262-269 | the left labels come first, then the right labels; a label the other side also has gets this side's suffix |
| Merge.MergeSeries | scr/covid_19.py:261-269 | rectangular, with distinct labels, and with the columns of all three series |
| Merge.MergeSeriesIndex | scr/covid_19.py:261-269 | the merged index holds each date label of the three tables exactly once and no other label |
| Merge.MergeSeriesCells | scr/covid_19.py:261-269 | in every merged row the cases columns come first, then deaths, then recovered; each cell is its series' cell at that date, or NaN when that series lacks the date |
| Merge.MergedGaps | scr/covid_19.py:261-269 | for series without NaN, a merged cell is NaN exactly when its series has no row for that date |
| Merge.CleanTableMergeable | scr/covid_19.py:39-56 | a date-indexed table from `clean_data_frame` is rectangular, has distinct date labels and has no NaN |
| Merge.ToDatetime | scr/covid_19.py:271 | succeeds exactly when every label parses; each timestamp is the midnight of the parsed date; otherwise ParseError names a label that does not parse |
| Merge.SetColumn | scr/covid_19.py:274-275 | every column of that name gets the values, other columns are untouched, and a missing name is appended |
| Merge.WithBounds | scr/covid_19.py:274-275 | the frame stays rectangular; its labels and cells are stated by `WithBoundsNames` and `WithBoundsCells` |
| Merge.WithBoundsCells | scr/covid_19.py:274-275 | every `left` cell is the row's timestamp minus 12 hours and every `right` cell is plus 12 hours; other old columns are untouched |
| Merge.WithBoundsNames | scr/covid_19.py:274-275 | the old columns keep their places, and `left` and `right` are among the columns |
| Merge.IndexByTime | scr/covid_19.py:271-281 | succeeds exactly when every merged label parses as a date |
| Merge.IndexByTimeKeepsMerged | scr/covid_19.py:271-281 | one row per merged label, indexed by its midnight; the merged columns come first, renamed; their cells are kept unless the label was `left`/`right` |
| Merge.IndexByTimeBounds | scr/covid_19.py:271-281 | the finished frame has `left` and `right` columns, holding the bounds of each row's timestamp |
| Merge.BarSpansOneDay | scr/covid_19.py:271-281 | in every row, `right` is a timestamp exactly 24 hours after `left` |
| Merge.Rename | scr/covid_19.py:281 | index and cells are unchanged, and the labels are the renamed ones |
| Merge.RenameColumns | scr/covid_19.py:277-279 | the loop builds exactly the renamed label list |
| Merge.RenamedLabels | scr/covid_19.py:277-281 | renaming keeps the number and order of labels and leaves no space; a label without spaces is unchanged, and renaming twice changes nothing more |
| Merge.BoundNamesKept | scr/covid_19.py:274-281 | a renamed label is `left`/`right` exactly when the original was, so renaming keeps both bounds |
| Merge.BarPlotFrame | scr/covid_19.py:261-281 | the frame builds exactly when every date label of the three series parses as a date |
| Merge.BuildBarPlotFrame | scr/covid_19.py:261-281 | the step-by-step construction of `main` gives the frame `BarPlotFrame` defines |
| Merge.BarPlotKeys | scr/covid_19.py:116-119 | the lookup keys; `BarPlotKeysExact` states them |
| Merge.BarPlotKeysExact | scr/covid_19.py:116-119 | the keys are exactly `[c+"_cases", c+"_deaths", c+"_recovered", "right", "left"]` with `c` the name with spaces replaced; none contains a space |
| Merge.InitialColumnsAreKeys | scr/covid_19_constants.py:41-42 | the start-up bar-plot columns are the first three keys of the start-up country |
| Merge.Positions | scr/covid_19.py:120 | the positions listed are exactly the columns of that name |
| Merge.MissingKey | scr/covid_19.py:120 | no key is reported exactly when every key is a column; a reported key is a key and not a column |
| Merge.SelectColumns | scr/covid_19.py:120 | succeeds exactly when every key is a column; otherwise KeyError names a missing key; the selection keeps the index and holds only key columns |
| Merge.SelectDistinct | scr/covid_19.py:120 | with distinct labels, the selected columns are the keys in key order, and each cell comes from that key's column |
| Merge.BarPlotSource | scr/covid_19.py:116-120 | succeeds exactly when all five keys are columns; otherwise KeyError names one of the keys that is missing; the rows are kept |
| Merge.BarPlotSourceFound | scr/covid_19.py:116-120 | a country that is a column of all three series gets all five keys in the bar-plot frame, so its lookup succeeds |

## Left out

- Reading the CSV series, the configuration file and the shapefile: this is I/O. The loaded frames are inputs.
- `coco.convert`: an external library, so it becomes the parameter `convert`. The model does not say which names it produces.
- JSON serialisation (`to_json`, `json.loads`, `json.dumps`): the snapshot is modelled as the table before serialisation.
- Geometry is an opaque type parameter, and the geometry table's own columns are fixed to `country`, `country_code`, `geometry`.
- The Bokeh figures, the colour mapper and palette, hover tools, the slider widget, the dropdown list of line 288, the callbacks and the layout: these are UI. The model keeps the data the callbacks compute.
- The `ColumnDataSource` wrapper of line 122: a UI object.
- `datetime.date.today()`: a clock, so the start-up date is a parameter `d`.
- The visual constants of `scr/covid_19_constants.py`, and its paths and display settings.
- Floating-point counts: counts are integers, and `timedelta(days=0.5)` is 12 whole hours.
- Time zones and nanosecond resolution: a timestamp is whole hours since 1970-01-01T00:00.
- `pd.to_datetime` on other formats: only the `M/D/YY` labels of the series files parse, with the year read as 20YY. Any other label is a ParseError.
- Duplicate labels: the loaded frame of `clean_data_frame` is assumed to have distinct column labels, since `read_csv` renames duplicates. From that, `Merge.CleanTableMergeable` proves that each date-indexed table has distinct index labels and no NaN, which is what the merge lemmas require.
- Merge.SelectColumns: when several keys are missing, pandas names all of them, but the model names only the first.
- Merge.OuterJoin: the model does not say what pandas does when a suffixed label collides with another label. It builds the name lists, and a clash is left to later lookups.
- Merge.UnionIndex: the sorted union is lexicographic on the label strings, as pandas sorts an object index, not chronological. The model states membership and uniqueness, not order.
- Merge.BarPlotSourceFound: requires that the country name plus `_recovered` is not itself a cases or deaths column. Without that requirement the second merge, which applies the `_x`/`_y` defaults, would rename the recovered column that collides with it.
- Merge.BarPlotSourceFound: requires that the frame builds, i.e. that every merged date label parses. It states only that the lookup succeeds. What the selected cells are is stated separately by `SelectDistinct` and `MergeSeriesCells`.
- GeoJoin.SnapshotValues: requires at most one tidy row per (country, date). `CleanTidyUnique` meets this requirement whenever the converted names are distinct. Converted country names could merge two groups into one name; for that case `LeftJoinRows`, `LeftJoinKeepsGeometry` and `MatchesMultiset` state the general result.
- GeoJoin.DateRows and GeoJoin.Matches: the model states which rows they keep and how often, but not that they keep the rows in the table's order.
- Dates.NextDayHours: covers days within a month only. A step across a month or year boundary is not stated.
