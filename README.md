# Learner dashboard: a verified model of its data core

The learner dashboard is a Dash web app. It shows Philippine school enrollment
counts (the learner information system's per-school CSV exports) as charts and
KPI cards. This project models its data core in Dafny and proves what each
step promises:

- **Loading a school year** (`app_data.py`). The code reads the year's CSV and
  left-joins it with the school registry on the BEIS School ID. It then:
  - picks out the grade columns with an anchored pattern;
  - derives the Total Male, Total Female and Total Enrollment columns, where
    the "N/A" sentinel counts as zero;
  - builds the grade dropdown (Kinder first, then teaching order);
  - builds the region dropdown (canonical region order).
- **Per-school metadata lookup**, and **sanitising** one row in place, which
  writes "N/A" over blank or zero counts.
- **The Senior High School track expansion.** Every G11/G12
  strand-and-gender column of every row becomes one long-format record per
  positive count.
- **The dashboard callback `update_charts`** (`app.py`). It applies the
  region filter and the grade/gender column selection, then produces:
  - the per-row "Selected Grades Total";
  - the region bar aggregate;
  - the gender pie totals;
  - the top-15 (Division, Region) leaderboard;
  - the KPI figures: total learners, distinct schools and the most enrolled
    division.
- **The SHS track chart callback.** Year, region and gender filters, then a
  (Track, Grade Level) group-by.
- **Navigation.** Which page a URL path shows, which sidebar button is
  highlighted, where a button click leads, and the sidebar toggle.

A table is its column names plus rows that map column names to cells. A cell
is a number, text or missing (pandas' NaN). Files on disk are a map from path
to table. The module-level frames of the app (`data`, `grade_columns`,
`combined_shs_track_df`) are parameters of the callbacks. pandas operations
are written out with the meaning they have in the code:
- `isin` filters rows;
- `groupby` drops NaN keys and sorts the keys it keeps;
- `sum(axis=1)` counts a column listed twice twice;
- `nunique` skips NaN;
- `idxmax` picks the first maximum and raises on an empty series.

The modules are:
- `Wrappers`: Option and Result.
- `Strings`: Python's `in`, `str` ordering, `int()`, `lstrip` and `split`.
- `Seqs`: duplicates, sums, sorting, group-by, top-n and arg-max.
- `Frame`: cells, rows, coercion, row sums and column filters.
- `AppData`: loading, options, the merge, metadata lookup and sanitising.
- `ShsTracks`: the SHS track expansion.
- `Dashboard`: `update_charts` and `update_shs_track_chart`.
- `Navigation`: the page and sidebar callbacks.

## Model

| member | source | states |
|---|---|---|
| AppData.GradeColumns | app_data.py:27 | a column is kept exactly when it is in the table and matches the anchored grade pattern |
| AppData.TwoDigitGradesAfterG1 | app_data.py:27 | a column starting "G1" plus a digit is a grade column exactly when that digit is 0, 1 or 2 (the `G1(?!\d)` look-ahead defers to G10–G12) |
| AppData.SchemaColumnsAreGradeColumns | app_data.py:27 | every column named after a grade of the teaching order is picked up as a grade column |
| AppData.WithTotalsCells | app_data.py:29-31 | the derived cells hold the Male sum, the Female sum and their total; every other cell is unchanged |
| AppData.TotalsRows | app_data.py:29-31 | the derived columns are added to every row and the row count is unchanged |
| AppData.NotGradeColumn | app_data.py:27 | a name not starting with K, G, E or J (so none of the derived total columns) matches no alternative of the grade-column pattern |
| AppData.TotalsRowsHaveTotals | app_data.py:29-31 | every loaded row's Total Enrollment is its own Male plus Female grade sum, because the derived columns are not grade columns |
| AppData.TotalsRowsCells | app_data.py:29-31 | row i of the result holds the three totals of row i, and its other cells are unchanged |
| AppData.TotalEnrollmentCoversGenderColumns | app_data.py:29-31 | when no column names both genders, Total Enrollment is the sum over the columns naming either gender, and a row of only "N/A" or NaN cells totals 0 |
| AppData.AddColumns | app_data.py:24 | the merged frame's columns are the data's columns followed by the new registry columns |
| AppData.MatchingSchools | app_data.py:24 | the registry rows with the row's School ID; empty exactly when none has it |
| AppData.MergeKeepsEveryRow | app_data.py:24 | a left join loses no enrollment row |
| AppData.MergeWithUniqueIds | app_data.py:24 | with unique registry IDs the join is row-for-row, and each row gets the data of its matching school |
| AppData.MergedRowCells | app_data.py:24 | an unmatched row is kept as it is; a matched row takes the school's cells, except its ID, and keeps its own other cells |
| AppData.AtMostOneMatch | app_data.py:24 | unique registry IDs give at most one matching school |
| AppData.GradeKeyList | app_data.py:34 | the grade keys are exactly the keys of the grade columns |
| AppData.GradeColumnHasKey | app_data.py:27-34 | every grade column yields a grade key |
| AppData.SchemaColumnKey | app_data.py:34 | a column named after grade g yields the key g |
| AppData.GradeRankIsSortOrder | app_data.py:35-37 | the rank is the sort-order table's entry, or 100 for a key outside it |
| AppData.GradeRankOfOrder | app_data.py:35-36 | the teaching order has no repeats and gives each grade its own position as rank |
| AppData.RankLessIsStrictWeak | app_data.py:37 | ordering by rank is a strict weak order, so the sort is well defined |
| AppData.GradeKeysOrdered | app_data.py:34-37 | the sorted keys are the distinct keys present, without repeats, in teaching order |
| AppData.WithoutKinderOrdered | app_data.py:39 | dropping "K" keeps the list repeat-free and in order |
| AppData.GradeChoices | app_data.py:39 | one dropdown entry per key, in order, valued by the key |
| AppData.GradeOptionsInTeachingOrder | app_data.py:39 | the options start with Kinder, list every key present exactly once, follow the teaching order, label "GN" as "Grade N" and label every other key ("Elem NG", "JHS NG") by the key itself |
| AppData.CanonicalGradeOptions | app_data.py:34-39 | a data set holding every grade key gives the full teaching order |
| AppData.RegionsPresent | app_data.py:41 | a region is offered exactly when it is in the canonical order and some row holds it |
| AppData.RegionChoices | app_data.py:41 | every region entry's label is its value |
| AppData.RegionsPresentIsSubsequence | app_data.py:41 | the offered regions keep the canonical order |
| AppData.RegionsPresentNoDup | app_data.py:41 | no region is offered twice |
| AppData.RegionOrderNoDup | app_data.py:9-13 | the canonical region order has no repeats |
| AppData.RegionChoicesMembers | app_data.py:41 | the entries for a list of regions are exactly the label-equals-value entries naming one of them |
| AppData.RegionOptionsCanonical | app_data.py:41 | the region options are the present regions, without repeats, in canonical order |
| AppData.RegionOptionsIgnoreTotals | app_data.py:29-41 | adding the total columns does not change the region options |
| AppData.LoadTables | app_data.py:20-42 | the loaded frame is the merged rows with totals; the grade columns, grade options and region options are computed from the merged frame |
| AppData.LoadDataForYear | app_data.py:15-42 | a missing year file raises FileNotFoundError with its path; loading fails exactly when a file is missing; otherwise the result is the loaded tables, with at least as many rows as the year's file |
| AppData.LoadSchools | app_data.py:44-45 | reading the registry fails with FileNotFoundError on its path exactly when the file is absent, and otherwise gives that file's table |
| AppData.GetSchoolMetadata | app_data.py:44-49 | FileNotFoundError exactly when the registry file is absent; otherwise None (IndexError) exactly when no school has that name, else the first row with that exact name |
| AppData.SanitizeColumnsAt | app_data.py:52-55 | a visited blank cell (NaN or 0) becomes "N/A"; every other cell is unchanged |
| AppData.SanitizeClean | app_data.py:52-55 | a row with no blank cells is unchanged |
| AppData.SanitizeIdempotent | app_data.py:52-55 | sanitising twice is sanitising once |
| AppData.SanitizeEnrollmentData | app_data.py:51-56 | rewrites row `rowIndex` in place to its sanitised form from the third column on and leaves the other rows alone; reports KeyError exactly when the row is missing and a column would be visited |
| ShsTracks.ReadSlot | app_data.py:69-83 | reading one slot gives the slot's records (a missing column, NaN, "N/A" or a non-positive count gives none; unparseable text raises ValueError) |
| ShsTracks.ExpandStrand | app_data.py:68-83 | the gender loop gives the records of both genders in order |
| ShsTracks.ExpandGrade | app_data.py:67-83 | the strand loop gives the records of the eight strands in order |
| ShsTracks.ExpandRow | app_data.py:66-83 | the grade loop gives the records of G11 then G12 |
| ShsTracks.BuildCombinedShsTrackDf | app_data.py:58-85 | the row loop gives the whole track frame, stopping at the first ValueError |
| ShsTracks.GendersFailurePersists | app_data.py:68-83 | an error raised at some step of the gender loop is the loop's outcome |
| ShsTracks.StrandsFailurePersists | app_data.py:67-83 | an error raised in the strand loop is its outcome |
| ShsTracks.GradesFailurePersists | app_data.py:66-83 | an error raised in the grade loop is its outcome |
| ShsTracks.RowsFailurePersists | app_data.py:65-83 | an error raised in the row loop is the function's outcome |
| ShsTracks.ArtsAndDesignWord | app_data.py:69-70 | "ARTS & DESIGN" columns are named by the word "ARTS" |
| ShsTracks.OneWordStrands | app_data.py:69-70 | TVL and SPORTS columns are named by the whole strand |
| ShsTracks.PositiveSlot | app_data.py:73-83 | a positive count in an existing column, numeric or text read as a number, gives exactly one record, carrying the row's Region and School Year, the gender, grade, strand and count |
| ShsTracks.SlotSound | app_data.py:73-83 | a slot gives at most one record, and it is positive and carries the slot's row, grade, strand and gender |
| ShsTracks.GendersSound | app_data.py:68-83 | the gender loop gives at most one record per gender, each from its slot |
| ShsTracks.StrandsSound | app_data.py:67-83 | the strand loop gives at most two records per strand, each from one of its strands |
| ShsTracks.GradesSound | app_data.py:66-83 | the grade loop gives at most 16 records per grade; each carries the row's Region and School Year, a listed grade, strand and gender, and a positive count |
| ShsTracks.ShsRecordsWellFormed | app_data.py:58-85 | at most 32 records per row, each with an SHS grade, a known strand, a known gender and a positive count |
| ShsTracks.GendersComplete | app_data.py:68-83 | every record of a slot is in the gender loop's output |
| ShsTracks.StrandsComplete | app_data.py:67-83 | every record of a slot is in the strand loop's output |
| ShsTracks.GradesComplete | app_data.py:66-83 | every record of a slot is in the grade loop's output |
| ShsTracks.ShsRecordsComplete | app_data.py:58-85 | every record a slot of any row yields, whatever its cell kind, is in the track frame |
| ShsTracks.ShsPositiveCountsRecorded | app_data.py:58-85 | every positive count in an SHS column of any row, numeric or text, appears as its record in the track frame |
| Dashboard.AllRegionOptionsCoverData | app.py:14 | the app's region list names each canonical region once, in canonical order, label equal to value, and offers every entry of the data's region dropdown |
| Dashboard.FilterRegions | app.py:175-176 | keeps exactly the rows whose Region is one of those chosen |
| Dashboard.FilterRegionsAppend | app.py:175-176 | filtering distributes over concatenation, so row order is kept |
| Dashboard.FilterRegionsIdempotent | app.py:230-231 | filtering twice by the same regions is filtering once |
| Dashboard.FilterRegionsKeepsAll | app.py:230-231 | filtering returns the rows unchanged exactly when every row is in a chosen region |
| Dashboard.ApplyRegionFilter | app.py:175-176 | with no region chosen the rows are untouched; otherwise the kept rows are exactly those in a chosen region |
| Dashboard.GradeColumnsFor | app.py:181-186 | a column is picked for a grade exactly when the grade's text occurs in it, and the gender word too when Male or Female is chosen |
| Dashboard.SelectedGradeColumnsMembers | app.py:178-186 | a column is selected exactly when it is picked for one of the chosen grades |
| Dashboard.SelectGradeColumns | app.py:178-186 | the loop builds the concatenation of each chosen grade's columns, in grade order |
| Dashboard.G1SelectsTwoDigitGrades | app.py:186 | choosing G1 also picks the G10, G11 and G12 columns, because the match is a substring test |
| Dashboard.OverlappingGradesCountTwice | app.py:187 | the row total over two chosen grades is the sum of each grade's total, so a column picked by both counts twice |
| Dashboard.RowSumIgnores | app.py:187-194 | writing the total column does not change the sums over the other columns |
| Dashboard.BarTotals | app.py:178-194 | with Male or Female chosen, the bar total is that gender's sum over every grade column, whatever grades were chosen; otherwise it is the chosen grades' sum, or the row's Total Enrollment |
| Dashboard.BarRowsKeepOtherColumns | app.py:178-194 | the bar pass adds the total column, keeps the row count and changes no other cell |
| Dashboard.SecondRegionFilterKeepsAll | app.py:230-231 | the second region filter removes nothing from the rows of the first |
| Dashboard.LexLessIsStrictWeak | app.py:196 | the string order used to sort group keys is a strict weak order |
| Dashboard.RegionAggregateGroups | app.py:196 | each region present appears once, in sorted order, and the region sums add up to the total over the rows with a region |
| Dashboard.RegionBarsCoverSelection | app.py:175-196 | after the region filter, the bars add up to the whole selection |
| Dashboard.BarRegionOrderByRegions | app.py:199 | the canonical region order is imposed exactly when the plotted rows name more than ten distinct regions, and otherwise no order is given |
| Dashboard.ColumnsNamingGrades | app.py:214-215 | a pie column is one naming some chosen grade and the gender word |
| Dashboard.ColumnsNamingGradesNoDup | app.py:214-215 | the pie columns do not repeat when the frame's columns are distinct |
| Dashboard.PieSlicesAddUpToEnrollment | app.py:216-220 | with no grade chosen, the pie's Male and Female totals add up to the Total Enrollment of the rows the region filter keeps |
| Dashboard.PieColumnsOnce | app.py:213-215 | the pie selects the same columns as the bar's Male or Female selection, each only once |
| Dashboard.DivisionEntries | app.py:255-258 | one entry per (Division, Region) key, with its school count and total |
| Dashboard.LeaderboardTop15 | app.py:255-261 | 15 distinct groups, or all of them when there are fewer, largest total first; each entry is a group that occurs, with its count and total; a group left off is no larger than any group listed |
| Dashboard.SchoolCountsPartition | app.py:255-258 | the school counts of the groups add up to the counted IDs of the rows that have both keys |
| Dashboard.SchoolsOfEntries | app.py:255-258 | the entries' school counts are the per-group ID counts |
| Dashboard.TotalSchoolsDistinct | app.py:286 | Total Schools is the number of distinct non-NaN School IDs, never more than the row count |
| Dashboard.MostEnrolledIsLargest | app.py:287 | a most enrolled division exists exactly when some row has a division; it is one of them, no division has a larger total, and every division sorted before it has a smaller total |
| Dashboard.PassesKeepDivisions | app.py:178-252 | the two passes keep every row and its Division cell |
| Dashboard.NoDivisionAfterPasses | app.py:287 | after both passes, `idxmax` raises exactly when no row the passes started from has a division |
| Dashboard.UpdateCharts | app.py:171-287 | the callback's figures are the region aggregate and order of the bar pass, the pie totals, and the leaderboard and KPIs of the recomputed totals; it raises exactly when no row kept by the region filter has a division |
| Dashboard.ShsFiltered | app.py:389-398 | a record is kept exactly when it passes the year, region and gender filters |
| Dashboard.ShsFilterChain | app.py:389-398 | the three filters applied in turn keep the same records as the single filter |
| Dashboard.FilterShsRegionsAppend | app.py:393-394 | the region filter distributes over concatenation |
| Dashboard.FilterGenderAppend | app.py:397-398 | the gender filter distributes over concatenation |
| Dashboard.PairLessIsStrictWeak | app.py:409 | the (Track, Grade Level) key order is a strict weak order and total |
| Dashboard.ShsChartOutcomes | app.py:385-413 | the chart raises KeyError exactly when there are no records and a filter applies; it shows the placeholder exactly when no record passes the filters; it never reaches "No data to display" |
| Dashboard.ShsChartBars | app.py:401-413 | the bars are the groups of the records that pass the filters |
| Dashboard.TrackGroupsKeys | app.py:409 | each bar's value is its key's enrollment sum, and a key has a bar exactly when a kept record has it |
| Dashboard.TrackGroupsOrdered | app.py:409 | the bars come in strictly increasing (Track, Grade Level) order |
| Dashboard.TrackGroupsTotal | app.py:409 | the bars add up to the enrollment of the kept records |
| Navigation.PageName | app.py:19-24 | pages 1 to 4 are dashboard, enrollment, help and settings; any other number shows the dashboard |
| Navigation.PageNumberOfPath | app.py:70 | "/" followed by a number reads back as that number |
| Navigation.ButtonPathsArePageNumbers | app.py:149-156 | each button's path is "/" followed by its page number |
| Navigation.LinkClasses | app.py:114-131 | pages 1 to 4 highlight exactly the matching button; any other number highlights none |
| Navigation.ContentMatchesLink | app.py:69-131 | content and highlight fail, with ValueError on the text after the slashes, exactly on the paths whose text after the slashes is not an optionally signed integer; a highlighted button is the page shown; a number outside 1 to 4 shows the dashboard with nothing highlighted |
| Navigation.NavigateButton | app.py:149-156 | a click on button k, through any of its properties, leads to "/k" |
| Navigation.NavigateFollowsButtons | app.py:143-157 | a trigger whose id is sidebar button k's leads to button k's path; no trigger, or one that is not a sidebar button, keeps the path |
| Navigation.ButtonPathShowsPage | app.py:69-131 | each button's path shows that button's page and highlights it |
| Navigation.ClickShowsPage | app.py:69-157 | clicking button k shows page k and highlights that button alone |
| Navigation.DefaultPathShowsDashboard | app.py:42-43 | the starting path shows the dashboard, stores page 1 and highlights the first button |
| Navigation.ToggleSidebarTwice | app.py:89-92 | a click flips the collapsed flag, two clicks restore it, and no click count leaves it |
| Strings.ContainsAt | app.py:182 | `sub in s` holds exactly when `sub` occurs at some position of `s` |
| Strings.ContainsTransitive | app.py:186 | a column containing "G11" contains "G1" |
| Strings.ParseDecimalString | app.py:70 | `int()` reads back a printed natural number |
| Strings.ScanDigitsCorrect | app.py:70 | the digit scanner accepts exactly the nonempty digit strings, with their value |
| Strings.ParseIntCorrect | app.py:70 | `int()` accepts exactly an optional sign followed by digits, with the signed value |
| Strings.LexLessTotal | app.py:196 | any two distinct strings are ordered one way or the other |
| Frame.RowSumInclusionExclusion | app_data.py:29-31 | the Male and Female sums together are the sum over the columns naming either, plus those naming both |
| Frame.CoerceSentinel | app_data.py:29-30 | after "N/A" becomes 0 and `to_numeric` coerces, a NaN, "N/A" or unreadable text counts 0, a number itself, and digits, signed or not, their value |
| Frame.ColumnsContaining | app_data.py:29 | a column is kept exactly when the word occurs in it |
| Seqs.TopNFacts | app.py:261 | descending sort plus `head(n)` keeps min(n, length) elements, each at most as often as it occurs (so none repeats when the input has no repeat), non-increasing, and none left off outranks one kept |
| Seqs.FirstMaxKeyFacts | app.py:287 | `idxmax` over the sorted group keys: none exactly when there are no keys; otherwise a present key whose total is the largest and strictly beats every earlier key |
| Seqs.SortedKeysFacts | app.py:196 | the group keys are the distinct non-NaN keys, sorted |
| Seqs.GroupSumsTotal | app.py:196 | the group sums add up to the total over the keyed elements |
| Seqs.SortBy | app.py:261 | sorting returns a permutation of its input |
| Seqs.SortBySorted | app.py:261 | under a strict weak order, the sorted output has no element ranked before an earlier one |
| Seqs.ArgMaxFirst | app.py:287 | `idxmax` returns a position whose value is the largest and strictly beats every earlier one |

## Left out

- File I/O: the CSV files are a map from path to table, and a file exists
  when its path is in that map. `AppData.LoadSchools` (`load_schools`)
  reads the registry's entry and fails with FileNotFoundError when it is
  absent, as `pd.read_csv` does.
- `app.py` imports `data`, `grade_columns`, `combined_shs_track_df` and
  `grade_options` from `app_data.py`, which does not define them. The
  callbacks take the frames as parameters, and `update_content`'s unused
  `current_page` state is dropped. `app.py` builds its own `region_options`
  from the whole canonical list (`Dashboard.AllRegionOptions`); the
  data-driven dropdown of `app_data.py` (`AppData.RegionOptions`) is not
  used by `app.py`.
- Numbers are integers. Text with an optional sign and digits ("-5", "+7")
  is read as its value, as `to_numeric` and `int()` read it. Decimal text
  such as "3.5", Python `int()`'s acceptance of surrounding whitespace,
  underscores and non-ASCII decimal digits (also accepted by `float()` in
  the SHS loop), and float rounding are not modelled; only ASCII digits
  are read. The same holds for column names: the `\d` of the grade
  patterns (app_data.py:27 and 34) also matches non-ASCII decimal digits,
  while `AppData.MatchesAlternative` and `AppData.GradeKeyOf` accept only
  ASCII digits. The `int(...)` truncation of the total learners (app.py:285)
  does not arise for integer counts.
- AppData.SanitizeEnrollmentData: `df.at[row_index, col]` looks up an
  index label, and the model indexes rows by position. The two agree for
  the default RangeIndex that `read_csv` gives, which is the only index
  the source builds.
- A column absent from a row reads as NaN. pandas raises KeyError when a
  selected column is absent from the frame; the model does not, except where
  the whole SHS frame has no columns.
- Merge collisions: registry columns with the same name as a data column
  (pandas' `_x`/`_y` suffixes) are not modelled. The joined row takes the
  registry's cell.
- Dashboard.Leaderboard: pandas' default sort is not stable, so the order of
  groups with equal totals is not modelled. The model uses a stable sort and
  proves only the order by total.
- A text cell holding a signed or unsigned integer counts as its number in every sum. pandas only
  does this after `to_numeric`, and summing a text column directly may
  concatenate strings instead.
- The SHS chart: when there are no records at all and a filter applies, the
  code raises KeyError on the column-less frame. The model follows the code
  rather than showing the "no data" placeholder.
- The canonical region order puts MIMAROPA after Region IV-A, as the code's
  list does.
- The chart, card and layout construction (plotly figures, Dash components,
  `page_router.create_content`, `get_content_style`, the sidebar view) are
  presentation and are not modelled. The model returns the data each figure
  plots.
- `toggle_modal`, `update_school_options`, `update_table`, the login page and
  the `print` calls are outside the modelled core. They depend on the Dash
  callback context, case-insensitive Unicode search and a web framework.
- Concurrency: Dash serves requests concurrently over the shared frame. Each
  callback here is one call returning the figures' data.
