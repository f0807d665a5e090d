# Gwangjin-gu grid analysis scripts, modelled in Dafny

The repository is a collection of Python scripts that prepare and map
100 m grid data for Gwangjin-gu in Seoul. Inside the library calls and the
plotting they apply small, self-contained rules, and this project models
those rules and proves what they guarantee. The rules are:

- **Top/bottom selectors** over (gid, value) tables:
  - `nlargest` of `int(n * p)` rows, for population and freezing;
  - the tail of an ascending sort, called "bottom", for accessibility and
    medical access;
  - a median threshold with ties kept, for slope extraction;
  - a floor(n/2) head of a descending sort, for slope visualisation;
  - fixed 795-row heads and tails, for A60 region selection.
- **The per-cell slope rule**: 0 for an empty cell, otherwise
  degrees(atan(range / diagonal)).
- **The 500 m grid**: floor-snapping, de-duplication, centre and box, and
  the inclusive bounding-box mask.
- **The weather collector**: the YYYYMMDD date range, the retry loop, the
  payload between markers, and comma-split rows.
- **Road names**: normalising list-valued names, substring matching,
  name lists, the header-once segment writer, and the value-count summary.
- **The protected-area score**: 0/1 flags set in place on the cells that
  hold an address point.
- **The bus-stop address master**: pipe-delimited records filtered by
  district.

Layout:
- Shared modules:
  - `Text`: strip, split, join, find, containment, decimal text, string
    order and sort.
  - `Tables`: distinct values, drop-duplicates by key, filters, counts,
    left and inner joins.
  - `Ranking`: sort order with missing values last, a stable sort,
    `nlargest`, median, truncation and colouring.
  - `Dates`: proleptic Gregorian dates and their YYYYMMDD form, following
    ISO 8601 basic calendar-date format (section 4.1.2.2 of ISO 8601:2004).
- One module per script, or per family of near-identical scripts:
  `Weather`, `Accessibility`, `Medical`, `Population`, `Freezing`,
  `RegionSelection`, `Slope`, `Grid500`, `ProtectedArea`, `RoadNames`,
  `RoadLayers`, `HeatRoads`, `AddressMaster`.

How the source's forms are mapped:
- Code that works on values becomes functions over datatypes and sequences.
- Code that updates state becomes classes with `modifies` clauses:
  - the in-place `score` column;
  - the added `is_bottom` and `slope_deg` columns;
  - the coordinate-system override;
  - the colour columns of the freezing map;
  - the output file that gets a header once.
- Loops in the source (the retry loop, the row-writing loops, the slope
  loop, the shapefile-reading loop, the API-point loop) become methods with
  `while` loops. Each is proved against a specification function.
- Missing values (NaN, None) are `Option`.
- Python errors the code can raise are `Result` errors carrying Python's
  message: KeyError, IndexError, ParserError, ValueError and
  UnboundLocalError.

## Model

| member | source | states |
|---|---|---|
| Text.Strip | data_extraction/collect_weather_data_from_api.py:59-60 | `str.strip()`: the result is a slice of the input with only whitespace removed on each side, and it neither starts nor ends with whitespace |
| Text.StripIdempotent | src/preprocessing/validate_original_heat.py:9 | stripping a stripped text changes nothing |
| Text.Split | data_extraction/collect_weather_data_from_api.py:117-118 | `str.split(sep)`: at least one piece, and no piece holds the separator |
| Text.SplitJoin | data_extraction/collect_weather_data_from_api.py:117-118 | joining the pieces with the separator gives back the original text |
| Text.SplitMany | data_extraction/collect_weather_data_from_api.py:33 | the split has more than one piece exactly when the separator occurs |
| Text.Find | data_extraction/collect_weather_data_from_api.py:57-58 | `str.find`: -1 when the needle does not occur, else the first position where it does |
| Text.FindMissing | data_extraction/collect_weather_data_from_api.py:56-58 | `find` returns -1 exactly when `in` is false |
| Text.ContainsIff | src/visualization/protected_road_visualization.py:98 | `rd in name` holds exactly when `rd` occurs at some position of `name` |
| Text.ContainsTrans | src/visualization/protected_road_visualization.py:87-99 | a text that contains a part that contains a needle contains the needle |
| Text.IntToString | src/data_collection/road_name_extraction.py:18 | `str(int)`: non-empty, with a leading minus exactly for negative numbers |
| Text.NatToStringValue | src/data_collection/road_name_extraction.py:18 | the decimal text of a count reads back as that count |
| Text.StrLessTotal | src/preprocessing/validate_original_heat.py:44 | any two different strings are ordered one way or the other |
| Text.StrLessTransitive | src/preprocessing/validate_original_heat.py:44 | the string order is transitive |
| Text.StrSort | src/preprocessing/validate_original_heat.py:44 | sorting strings gives an ascending permutation of the input |
| Tables.Distinct | src/visualization/bus_route_visualization.py:12 | `unique()`: no repeats, the same values as the input, in order of first appearance |
| Tables.DistinctBy | src/visualization/freezing_visualization.py:9 | `drop_duplicates(subset=key)`: no key twice, every key of the input kept, each kept row the first row with its key, in order of first appearance |
| Tables.HasKeyIff | src/visualization/freezing_visualization.py:9 | `HasKey`, in which DistinctBy states that every key is kept, holds exactly when some row of the sequence carries the key |
| Tables.Filter | src/visualization/accessibility_visualization.py:30 | a boolean-mask selection: exactly the rows that satisfy the mask, as an order-preserving subsequence |
| Tables.LeftJoinKeeps | src/visualization/population_visualization.py:24 | a left merge keeps every left row |
| Tables.LeftJoinUnique | src/visualization/population_visualization.py:24 | with unique right keys, a left merge yields one row per left row, in order, paired with the right row of its key or with nothing |
| Tables.InnerJoin | src/preprocessing/region_selection_a60_step2.py:30 | an inner merge: exactly the pairs of rows with equal keys |
| Tables.InnerJoinMatchedLeftJoin | src/preprocessing/region_selection_a60_step2.py:30 | the inner merge is the left merge without its unmatched rows: one row per matching pair, in left-row order |
| Tables.InnerJoinUnique | src/preprocessing/region_selection_a60_step2.py:30 | with unique right keys, the inner merge holds each left row that has a match exactly once, in left-row order, paired with the right row its key looks up |
| Ranking.Sort | src/visualization/accessibility_visualization.py:33 | `sort_values`: ordered by the key with missing values last, and a permutation of the input |
| Ranking.SortedCut | src/visualization/accessibility_visualization.py:33-35 | in a sorted sequence, every row before a cut is no greater than every row after it |
| Ranking.Trunc | src/visualization/accessibility_visualization.py:34 | `int()` on a float truncates toward zero |
| Ranking.TruncHalf | src/preprocessing/population_extraction.py:22 | `int(n * 0.5)` is `n // 2` |
| Ranking.SliceStart | src/visualization/accessibility_visualization.py:35 | where `iloc[k:]` starts: at k when 0 <= k <= n, and never past the end |
| Ranking.NLargestSplit | src/preprocessing/population_extraction.py:23 | `nlargest(n, key)`: min(n, present) rows, missing values dropped, descending, each at or above every other present row |
| Ranking.NLargestAbove | src/preprocessing/population_extraction.py:23 | a selected row has fewer rows strictly above it than were selected |
| Ranking.NLargestBelow | src/preprocessing/population_extraction.py:23 | a present row left out has more rows at or above it than were selected |
| Ranking.Median | src/preprocessing/slope_extraction.py:71 | `median()`: missing for no values, otherwise the mean of two of the values |
| Ranking.MedianOrder | src/preprocessing/slope_extraction.py:71 | `median()` picks its order statistics: for n values it is the mean of the (n - 1) // 2-th and the n // 2-th smallest (counting from 0), the middle value for odd n and the mean of the two middle values for even n |
| Ranking.OrderStatExists | src/preprocessing/slope_extraction.py:71 | every position 0 <= k < n has a k-th smallest value |
| Ranking.OrderStatUnique | src/preprocessing/slope_extraction.py:71 | the k-th smallest value is unique |
| Ranking.MedianOfTwo | src/preprocessing/slope_extraction.py:71 | the median of two values is their mean |
| Ranking.MedianBound | src/preprocessing/slope_extraction.py:71-72 | at least n - n // 2 values are at or above the median, and as many at or below it |
| Ranking.ColorTop | src/visualization/population_visualization.py:31-32 | the colour column: the top colour exactly for rows whose id is among the ids of the `nlargest` rows, the other colour otherwise |
| Ranking.UniqueFixesKey | src/visualization/population_visualization.py:30-32 | distinct ids are one case of rows sharing an id sharing a value |
| Ranking.ColoredTopAreLargest | src/visualization/population_visualization.py:30-32 | when rows sharing an id share a value (distinct ids being one case), a top-coloured row has a value, fewer than n rows exceed it, and every other-coloured row with a value is no larger |
| Dates.DaysInMonth | data_extraction/collect_weather_data_from_api.py:51-52 | Gregorian month lengths lie between 28 and 31 |
| Dates.NextDay | data_extraction/collect_weather_data_from_api.py:53 | `d + timedelta(days=1)`: a valid date whose ordinal is one more |
| Dates.OrdinalInjective | data_extraction/collect_weather_data_from_api.py:53 | two valid dates with the same day ordinal are the same date |
| Dates.OrdinalOrder | data_extraction/collect_weather_data_from_api.py:53 | the day ordinal follows calendar order |
| Dates.Days | data_extraction/collect_weather_data_from_api.py:53 | `count` consecutive days: the first is `start`, each next one is the following day, and the ordinals step by one |
| Dates.Parse | data_extraction/collect_weather_data_from_api.py:51-52 | `strptime(s, "%Y%m%d")` on eight digits: a success is always a valid date |
| Dates.ParseFormat | data_extraction/collect_weather_data_from_api.py:53 | reading back a formatted date gives the date |
| Dates.FormatParse | data_extraction/collect_weather_data_from_api.py:51-53 | formatting a parsed text gives back the text |
| Weather.GenerateDateRange | data_extraction/collect_weather_data_from_api.py:50-53 | an error unless both texts are dates; otherwise max(0, days + 1) strings, the i-th being i days after `start` |
| Weather.DateRangeEnds | data_extraction/collect_weather_data_from_api.py:50-53 | the range is empty exactly when `end` precedes `start`; otherwise it starts with `start` and ends with `end` |
| Weather.DateRangeSteps | data_extraction/collect_weather_data_from_api.py:53 | each entry is followed by the next calendar day |
| Weather.JanuaryRange | data_extraction/collect_weather_data_from_api.py:73 | the collector's own range has 31 days, from 20230101 to 20230131 |
| Weather.ParseApiResponse | data_extraction/collect_weather_data_from_api.py:55-60 | without both markers, the whole text stripped; the result never starts or ends with whitespace |
| Weather.ParseFramed | data_extraction/collect_weather_data_from_api.py:56-59 | with both markers, the result is the stripped text between the end of the first start marker and the first end marker |
| Weather.BetweenAt | data_extraction/collect_weather_data_from_api.py:56-59 | when the first `open` is found at a and the first `close` at b with a + len(open) <= b, the cut is exactly `text[a + len(open):b]` and lies within the text |
| Weather.BetweenFramed | data_extraction/collect_weather_data_from_api.py:56-59 | for any pair of markers: prefix, marker, payload, marker, rest with no earlier marker cut back to exactly the payload |
| Weather.ParseOverlapped | data_extraction/collect_weather_data_from_api.py:57-59 | when the first end marker begins before the first start marker ends, the result is "" |
| Weather.SufficientIff | data_extraction/collect_weather_data_from_api.py:31-34 | a 200 body is accepted exactly when it has both markers or its stripped text holds a line break |
| Weather.Prefix | data_extraction/collect_weather_data_from_api.py:36 | `text[:50]`: the first min(50, len) characters |
| Weather.FetchApiDataByCoord | data_extraction/collect_weather_data_from_api.py:25-48 | the attempt loop returns exactly the outcome `FetchFrom` defines for attempts 1..max_retries |
| Weather.FetchOutcome | data_extraction/collect_weather_data_from_api.py:25-48 | "success" exactly when some attempt succeeds, with the first successful body; otherwise "failed" with the last attempt's message; lon, lat and date echoed unchanged |
| Weather.FetchFromOutcome | data_extraction/collect_weather_data_from_api.py:25-48 | the same outcome from any attempt k on, given the previous attempt's message |
| Weather.FetchNoAttempts | data_extraction/collect_weather_data_from_api.py:25-48 | with max_retries < 1 no attempt is made and `result` is read unbound: an error |
| Weather.FetchOnlyConsults | data_extraction/collect_weather_data_from_api.py:25 | only attempts 1..max_retries matter: outcomes outside that range never change the result |
| Weather.LineFields | data_extraction/collect_weather_data_from_api.py:118 | the stripped comma-separated fields of the stripped line |
| Weather.RowOf | data_extraction/collect_weather_data_from_api.py:117-131 | a row exactly when the line has at least 7 fields, filling timestamp, ta, hm, td, ws_10m, rn_60m and sd_3hr in order with the result's lon, lat and date |
| Weather.RowsOfLines | data_extraction/collect_weather_data_from_api.py:117-131 | at most one row per line, each carrying the result's coordinates and date |
| Weather.RowsOfResult | data_extraction/collect_weather_data_from_api.py:117-131 | the inner writing loop yields exactly `RowsOfLines` |
| Weather.WriteParsedRows | data_extraction/collect_weather_data_from_api.py:111-131 | the outer writing loop yields exactly `ParsedRows` of all results |
| Weather.OnlySuccessRows | data_extraction/collect_weather_data_from_api.py:111-113 | results that are not a success contribute no rows, and every row carries a successful result's lon, lat and date |
| Accessibility.Layer.SetCrsIfDiffers | src/visualization/accessibility_visualization.py:23-25 | the system is set to the target exactly when it was missing or different, and the cells are untouched |
| Accessibility.OverrideTwice | src/visualization/accessibility_visualization.py:23-24 | a second override changes nothing |
| Accessibility.FilterRegionByCode | src/visualization/accessibility_visualization.py:29-30 | exactly the cells with that district code, in order |
| Accessibility.FilterRegionCount | src/visualization/accessibility_visualization.py:29-30 | the district filter keeps as many cells as have the code, so no repeat is dropped |
| Accessibility.FilterRegionIdempotent | src/visualization/accessibility_visualization.py:29-30 | filtering the same district twice equals filtering once |
| Accessibility.BottomStart | src/visualization/accessibility_visualization.py:34 | the slice start `int(n * p)` never passes the end |
| Accessibility.BottomCells | src/visualization/accessibility_visualization.py:33-35 | the ascending order from the slice start on: n - start cells |
| Accessibility.Region.GetBottomPercent | src/visualization/accessibility_visualization.py:32-36 | the frame's rows are unchanged and only `is_bottom` is set, to the flags |
| Accessibility.BottomFlagIff | src/visualization/accessibility_visualization.py:33-35 | with unique gids, a cell is flagged exactly when it is among the cells from the slice start of the ascending order |
| Accessibility.BottomFlagsHigh | src/visualization/accessibility_visualization.py:33-35 | every flagged value is at or above every unflagged value (missing values last) |
| Accessibility.BottomFlagCount | src/visualization/accessibility_visualization.py:33-35 | with unique gids, exactly n - int(n * p) cells are flagged |
| Accessibility.BottomExtremes | src/visualization/accessibility_visualization.py:34-35 | p = 0 flags every cell and p = 1 flags none |
| Accessibility.PlotColors | src/visualization/accessibility_visualization.py:41 | "#D62828" exactly for flagged cells and "#D3D3D3" exactly for the others |
| Medical.SelectBottomHalf | data_extraction/Medical_approach_preprocessing.py:38-45 | of the district-11215 cells, the kept part has n - n // 2 rows in ascending order, the dropped part n // 2, together a permutation, and every kept value is at or above every dropped one |
| Medical.Preprocess | data_extraction/Medical_approach_preprocessing.py:31-45 | the coordinate system ends as EPSG:5179, the cells are unchanged, and the kept rows are the selection's |
| Population.Concat | src/visualization/population_visualization.py:13 | `pd.concat`: every row of every file, and nothing else; as many rows as the files together |
| Population.ConcatAppend | src/visualization/population_visualization.py:13 | concatenating one more file appends its rows, in order, after the earlier ones |
| Population.GroupValues | src/visualization/population_visualization.py:14 | the A60 values of one GID, missing values left out, one per row of that GID with a value |
| Population.GroupValuesFiltered | src/visualization/population_visualization.py:14 | the group's values are the A60 column of that GID's rows with a value, in row order, each row once |
| Population.Mean | src/visualization/population_visualization.py:14 | `mean()`: missing exactly when no value is left |
| Population.MeanWithin | src/visualization/population_visualization.py:14 | a mean lies within any bounds of its values |
| Population.GroupKeys | src/visualization/population_visualization.py:14 | the `groupby` keys: each present GID once, strictly ascending |
| Population.LoadPopulationData | src/visualization/population_visualization.py:12-16 | one row per GID present in any file, ascending by GID, whose total_count is the mean of that GID's A60 values; the same code also at src/preprocessing/population_extraction.py:6-11 |
| Population.GroupMean | src/visualization/population_visualization.py:14 | a GID's mean exists exactly when one of its rows has a value, and lies between its smallest and largest values |
| Population.LoadedTotal | src/visualization/population_visualization.py:14-15 | each loaded total exists exactly when its GID has a value, and lies between that GID's extremes |
| Population.LoadedUnique | src/preprocessing/population_extraction.py:9 | the loaded table has one row per GID |
| Population.MergePopulationWithGdf | src/visualization/population_visualization.py:19-25 | a left merge: every grid cell kept, and each total comes from the averaged row with the cell's gid |
| Population.MergeOneForOne | src/preprocessing/population_extraction.py:13-19 | with the loaded averages, the merge keeps the grid cell for cell, in order, each with its own GID's mean or with none |
| Population.HighlightedAreLargest | src/visualization/population_visualization.py:30-32 | a pink cell has a total that fewer than top_n cells exceed, every grey cell with a total has one no larger, and only the two colours occur |
| Population.ExtractTop50Gid500 | src/preprocessing/population_extraction.py:21-28 | exactly the exported (gid_500, geometry) rows of `nlargest(n // 2, "total")`, in its order: min(n // 2, cells with a total) rows, each from a cell that fewer than n // 2 cells exceed |
| Freezing.ExtractUniqueGidCoords | src/visualization/freezing_visualization.py:8-9 | one row per gid, each the first row with that gid, every gid represented, in order of first appearance |
| Freezing.MergeFreezingCounts | src/visualization/freezing_visualization.py:34-35 | a left merge: every centroid kept, and each count comes from a freezing row with that gid, or is missing |
| Freezing.MergeOneForOne | src/visualization/freezing_visualization.py:35 | with one count row per gid, the merge keeps the centroids one for one, in order |
| Freezing.DuplicateCountGrows | src/visualization/freezing_visualization.py:35-42 | two count rows with one gid double a centroid, so the positional copy no longer lines up |
| Freezing.MergeFixesCount | src/visualization/freezing_visualization.py:35 | with one count row per gid, merged cells that share a gid (one nearest point for several cells) share its count |
| Freezing.BlueAreLargest | src/visualization/freezing_visualization.py:44-46 | when cells sharing a gid share its count (as the nearest-point join and the merge give, and as distinct gids give trivially), a blue cell — of which there may be more than int(n * p) when gids repeat — has a count that fewer than int(n * p) cells exceed, and every grey cell with a count has one no larger |
| Freezing.FreezeMap.VisualizeResult | src/visualization/freezing_visualization.py:38-46 | on a length mismatch, a ValueError and nothing assigned; otherwise gid and total_count copied by position and the colour column set |
| RegionSelection.RenameColumn | src/preprocessing/region_selection_a60_step2.py:10 | `rename(columns={from: to})`: same length, `to` present exactly when `to` or `from` was, `from` gone, other names untouched |
| RegionSelection.Top795 | src/preprocessing/region_selection_a60_step2.py:9 | min(795, n) rows in descending A60 order, each at or above every row left behind, together a permutation |
| RegionSelection.Tail795AsWritten | src/preprocessing/region_selection_a60_step2.py:61-62 | `sort_values("A60").tail(795)`: the last min(795, n) rows of the ascending order, each at or above every row left behind |
| RegionSelection.TailKeepsLargest | src/preprocessing/region_selection_a60_step2.py:61-62 | with more than 795 present values that are not all equal, a row left behind is strictly smaller than a kept row |
| RegionSelection.Bottom795 | src/preprocessing/region_selection_a60_step2.py:61-62 | the bottom 795 the comment describes: min(795, n) rows in ascending order, each at or below every row left behind |
| RegionSelection.BottomKeepsSmallest | src/preprocessing/region_selection_a60_step2.py:61-62 | on present values, no row left behind is below a kept row |
| RegionSelection.ReadGridProps | src/preprocessing/region_selection_a60_step2.py:16-21 | one property map per feature, in file order, each the feature's properties with its geometry stored under "geometry" |
| RegionSelection.GridOf | src/preprocessing/region_selection_a60_step2.py:24-30 | a KeyError exactly when no feature has a gid (the frame then has no "gid" column to merge on); otherwise one cell per feature, in order, with its geometry and its gid, missing where the feature has none |
| RegionSelection.MergeGrid | src/preprocessing/region_selection_a60_step2.py:30 | `merge(on="gid", how="inner")` of the grid with a selection: exactly the matching (cell, row) pairs, a missing gid matching nothing; with unique selected gids, each matched cell once, in grid order, with its row |
| RegionSelection.MergeTop | src/preprocessing/region_selection_a60_step2.py:30 | the merge with the top 795: exactly the matching pairs, with unique gids each matched cell once in grid order, each value at or above every unselected one |
| RegionSelection.MergeBottomAsWritten | src/preprocessing/region_selection_a60_step2.py:79 | the merge at line 79 as written, with `tail(795)`: exactly the matching pairs, with unique gids each matched cell once in grid order, each value at or above every row left behind |
| RegionSelection.MergeBottom | src/preprocessing/region_selection_a60_step2.py:79 | the corrected merge, with the bottom 795: exactly the matching pairs, with unique gids each matched cell once in grid order, each value at or below every unselected one |
| RegionSelection.Label | src/preprocessing/region_selection_a60_step2.py:49 | `str(int(A60))`: a ValueError for NaN, otherwise text with a minus sign exactly for values at or below -1 |
| RegionSelection.LabelValue | src/preprocessing/region_selection_a60_step2.py:49 | a non-negative value's label reads back as its integer part |
| Slope.HeightRange | src/preprocessing/slope_extraction.py:42 | `heights.max() - heights.min()`, never negative |
| Slope.SlopeRange | src/preprocessing/slope_extraction.py:42-45 | every slope lies in [0, 90) |
| Slope.SlopeZeroIff | src/preprocessing/slope_extraction.py:35-45 | a slope is 0 exactly when all the heights in the cell are equal, or there are none |
| Slope.SlopeMonotone | src/preprocessing/slope_extraction.py:42-44 | a cell whose heights spread more never has a smaller slope |
| Slope.Slopes | src/preprocessing/slope_extraction.py:32-47 | one slope per cell, in cell order |
| Slope.SlopeGrid.AddSlopeColumn | src/preprocessing/slope_extraction.py:32-47 | the loop appends each cell's slope in order; `slope_deg` becomes exactly `Slopes` of the cells, and rows are untouched; the same code also at src/visualization/slope_visualization.py:34-50 |
| Slope.GidField | src/preprocessing/slope_extraction.py:63-68 | "GID" exactly when the grid has it, "gid" exactly when it has gid but not GID, none exactly when it has neither |
| Slope.GidText | src/preprocessing/slope_extraction.py:75-78 | the chosen field's value as text ("None", the text of a null value, if the row has none), or the index as text when no field was chosen |
| Slope.MedianSelect | src/preprocessing/slope_extraction.py:71-72 | an order-preserving subset: exactly the cells at or above the median, at least n - n // 2 of them, each steeper than every cell dropped; nothing for an empty grid |
| Slope.ExtractGids | src/preprocessing/slope_extraction.py:75-78 | one GID text per kept cell, in order |
| Slope.HalfSelect | src/visualization/slope_visualization.py:66-68 | n // 2 cells in descending slope order, each at least as steep as every cell left out, together a permutation |
| Slope.HalfLabels | src/visualization/slope_visualization.py:71-72 | each kept cell's own GID when the grid has that column, otherwise its 0-based position in the descending order |
| Slope.HalfSplitsTies | src/visualization/slope_visualization.py:66-68 | of two equally steep cells the half rule keeps one and leaves one |
| Slope.MedianKeepsTies | src/preprocessing/slope_extraction.py:71-72 | of two equally steep cells the median rule keeps both |
| Grid500.GridIndex | data_extraction/compare_grid_centers_from_netcdf_and_500m.py:23-24 | `c // 500` as an integer: 500k <= c < 500(k + 1) |
| Grid500.IndexUnique | data_extraction/compare_grid_centers_from_netcdf_and_500m.py:23-24 | that interval determines the index |
| Grid500.IndexMonotone | data_extraction/compare_grid_centers_from_netcdf_and_500m.py:23-24 | a larger coordinate never gets a smaller index |
| Grid500.Snap | data_extraction/create_500m_grid_centroids.py:18-19 | `(c // 500) * 500`: g <= c < g + 500, and g is the comparison script's index times 500 |
| Grid500.SnapIdempotent | data_extraction/create_500m_grid_centroids.py:18-19 | snapping a corner leaves it unchanged |
| Grid500.SameBandIff | data_extraction/compare_grid_centers_from_netcdf_and_500m.py:27 | two coordinates share an index exactly when the second lies in [corner, corner + 500) of the first |
| Grid500.Corner | data_extraction/create_500m_grid_centroids.py:18-19 | a cell's (grid_x, grid_y) is below its centroid by less than 500 on each axis |
| Grid500.SameCellIff | data_extraction/compare_grid_centers_from_netcdf_and_500m.py:27 | two 100 m cells are dissolved together exactly when their corners are equal, i.e. the second lies in the first's 500 m square |
| Grid500.GridCorners | data_extraction/create_500m_grid_centroids.py:22 | `drop_duplicates()`: each corner pair once, a pair listed exactly when some 100 m cell has it, in order of first appearance |
| Grid500.MakeCell | data_extraction/create_500m_grid_centroids.py:26-30 | centre = corner + 250, strictly inside a 500 × 500 box from the corner, and at the box's midpoint |
| Grid500.CentreSnapsToCorner | data_extraction/create_500m_grid_centroids.py:26-27 | a centre snaps back to its own corner |
| Grid500.Grid | data_extraction/create_500m_grid_centroids.py:22-30 | one 500 m cell per distinct corner, in order |
| Grid500.EveryCellCovered | data_extraction/create_500m_grid_centroids.py:22 | every 100 m cell lies in some 500 m cell of the frame, and no two frame cells share a corner |
| Grid500.Export | data_extraction/create_500m_grid_centroids.py:37-48 | grid_x and grid_y are written as computed (projected units); only lon and lat come from the reprojected centre |
| Grid500.RowMask | data_extraction/compare_grid_centers_from_netcdf_and_500m.py:55-59 | the masked positions of one row, with all four bounds inclusive, in column order |
| Grid500.MaskIndices | data_extraction/compare_grid_centers_from_netcdf_and_500m.py:55-59 | `np.where(mask)`: exactly the in-bounds positions, each once, in row-major order |
| Grid500.ApiPointsInRegion | data_extraction/compare_grid_centers_from_netcdf_and_500m.py:59-65 | one point per masked position in order; every point lies in the bounds, and every in-bounds grid point is among them |
| ProtectedArea.CellsHolding | src/preprocessing/protected_area_extraction.py:43 | the positions of the cells that hold one point |
| ProtectedArea.JoinedCellIndices | src/preprocessing/protected_area_extraction.py:43 | `sjoin(...).index_right`: a position occurs exactly when that cell holds some address point |
| ProtectedArea.ScoredGrid.constructor | src/preprocessing/protected_area_extraction.py:40 | every cell starts with score 0 |
| ProtectedArea.ScoredGrid.FlagAddressCells | src/preprocessing/protected_area_extraction.py:43-45 | a cell holding an address point gets 1, every other score is left as it was, and the cells are unchanged |
| ProtectedArea.ScoresOf | src/preprocessing/protected_area_extraction.py:40-45 | a score is 1 exactly when the cell holds an address point, and every score is 0 or 1 |
| ProtectedArea.ScoreCells | src/preprocessing/protected_area_extraction.py:40-45 | initialising and flagging leave exactly `ScoresOf`, however many points share a cell; the same code also at src/visualization/protected_road_visualization.py:57-62, src/visualization/protected_road_visualization_w_base.py:66-70 |
| ProtectedArea.Highlighted | src/preprocessing/protected_area_extraction.py:83 | `score == 1` selection: exactly the cells at score-1 positions |
| ProtectedArea.HighlightedInOrder | src/preprocessing/protected_area_extraction.py:83 | the selection is the cells at the score-1 positions, in ascending position order, one per position |
| ProtectedArea.HighlightedAreAddressed | src/visualization/protected_road_visualization.py:65 | the highlighted cells are exactly the cells holding an address point |
| RoadNames.Normalise | src/visualization/protected_road_visualization.py:87-89 | a list name becomes its parts joined with ", "; any other value passes unchanged; the result is never a list |
| RoadNames.NormaliseIdempotent | src/visualization/protected_road_visualization.py:87-89 | normalising twice equals normalising once |
| RoadNames.WithRoadNames | src/visualization/protected_road_visualization_w_base.py:79 | the `road_name` column: every edge's name normalised, order and geometry kept; the same code also at src/visualization/bus_route_visualization.py:33-35, src/visualization/bus_route_visualization_w_base.py:40, src/visualization/road_width_visualization.py:32-34, src/visualization/road_width_visualization_w_base.py:31, src/visualization/original_heat_visualization.py:26 |
| RoadNames.PartInJoin | src/visualization/protected_road_visualization.py:88 | every part lies inside the joined text |
| RoadNames.NonTextNeverMatches | src/visualization/protected_road_visualization.py:98 | a name that is not text is never kept |
| RoadNames.JoinedMatchesPart | src/visualization/protected_road_visualization.py:87-99 | a joined list name matches when any one of its parts contains a listed name |
| RoadNames.KeepMatching | src/visualization/protected_road_visualization.py:97-99 | an order-preserving subset: exactly the edges whose name is text containing some listed name, as many as match |
| RoadNames.DistinctNames | src/visualization/bus_route_visualization.py:11-12 | `dropna().unique().tolist()`: each present value once, in order of first appearance; the same code also at src/visualization/road_width_visualization.py:11-12, src/visualization/original_heat_visualization.py:15-16 |
| RoadNames.Present | src/visualization/bus_route_visualization_w_base.py:28 | `dropna()`: exactly the present values |
| RoadNames.PresentOrder | src/visualization/bus_route_visualization_w_base.py:28 | dropping missing values keeps the order of first appearances |
| RoadNames.ExportRows | src/visualization/protected_road_visualization_w_base.py:109 | the two-column export: one (road_name, geometry) row per kept edge, in order; the same code also at src/visualization/bus_route_visualization_w_base.py:70, src/visualization/road_width_visualization_w_base.py:77 |
| RoadLayers.ProtectedRoads | src/visualization/protected_road_visualization.py:70-99 | an order-preserving subset of the overlaid edges: exactly those whose name is text containing one of the 13 protected names, as many as match; the same code also at src/visualization/protected_road_visualization_w_base.py:73-83 |
| RoadLayers.SafeRoadNamesDistinct | src/visualization/protected_road_visualization.py:70-84 | the 13 protected names are distinct |
| RoadLayers.ListedRoads | src/visualization/bus_route_visualization.py:38-43 | an order-preserving subset of the overlaid edges: exactly those whose name is text containing some present 도로명 value, as many as match; the same code also at src/visualization/bus_route_visualization_w_base.py:42-44, src/visualization/road_width_visualization.py:36-40, src/visualization/road_width_visualization_w_base.py:34-36 |
| RoadLayers.ListNameKept | src/visualization/protected_road_visualization.py:87-99 | from the raw names on, a list-named edge is kept when one of its parts holds a protected name |
| HeatRoads.ColumnOf | src/visualization/original_heat_visualization.py:16 | `df[name]`: a KeyError exactly when no header is `name`; otherwise one cell per row from the first such column, missing past a short row |
| HeatRoads.LoadFilteredEdges | src/visualization/original_heat_visualization.py:14-37 | a KeyError exactly when no header is 도로명 as read (no strip); otherwise stage 2 is a subset of stage 1, exactly the overlaid edges whose text name holds the target and some heated road name, as many as match |
| HeatRoads.PaddedHeaderMissedByLoader | src/visualization/original_heat_visualization.py:16 | a 도로명 header with a leading space is a KeyError for the loader, though the validation script's stripped lookup finds it |
| HeatRoads.AfterSave | src/visualization/original_heat_visualization.py:79-82 | a new file gets the header and the row; an existing one gets the row appended |
| HeatRoads.RowLines | src/visualization/original_heat_visualization.py:76 | one (road_name, geometry) line per segment, in order |
| HeatRoads.SaveAllExisting | src/visualization/original_heat_visualization.py:79-80 | saves to an existing file append one row each and no header |
| HeatRoads.FreshSaves | src/visualization/original_heat_visualization.py:79-82 | k saves to a fresh path leave the header followed by the k rows in order |
| HeatRoads.OneHeader | src/visualization/original_heat_visualization.py:79-82 | after k saves to a fresh path the file has k + 1 lines, the header first and only rows after it |
| HeatRoads.PyIndex | src/visualization/original_heat_visualization.py:76 | `iloc[[index]]`: a position exactly for -n <= index < n, counting negative indices from the end |
| HeatRoads.SegmentFile.SaveSegmentByIndex | src/visualization/original_heat_visualization.py:75-82 | an IndexError and no write out of range; otherwise the file becomes `AfterSave` of its old state with the indexed segment |
| HeatRoads.StripHeader | src/preprocessing/validate_original_heat.py:9 | every column name stripped, in order |
| HeatRoads.StripHeaderIdempotent | src/preprocessing/validate_original_heat.py:9 | stripping the header twice equals stripping it once |
| HeatRoads.HeatColumn | src/preprocessing/validate_original_heat.py:9-10 | a KeyError exactly when no stripped name is 도로명; otherwise that column's cells |
| HeatRoads.PaddedHeaderFound | src/preprocessing/validate_original_heat.py:9-10 | a 도로명 header with surrounding spaces is still found |
| HeatRoads.MatchedAsWritten | src/preprocessing/validate_original_heat.py:22-29 | the match as written: a KeyError unless the edges already have `road_name` |
| HeatRoads.MatchFailsOnOsmEdges | src/preprocessing/validate_original_heat.py:22-29 | on the edges the script builds, the match always fails |
| HeatRoads.Matched | src/preprocessing/validate_original_heat.py:27-29 | the corrected match: an order-preserving subset of the normalised edges, exactly those whose text name holds a heated name, as many as match |
| HeatRoads.MatchedKeeps | src/preprocessing/validate_original_heat.py:27-29 | every edge whose own name, or one part of its list name, holds a heated name is matched |
| HeatRoads.SumOccurrencesAll | src/preprocessing/validate_original_heat.py:34-38 | counting each distinct name counts every name once |
| HeatRoads.SummaryRows | src/preprocessing/validate_original_heat.py:34-38 | one (name, count) row per key, and the counts sum to the keys' occurrences |
| HeatRoads.SortedKeys | src/preprocessing/validate_original_heat.py:44 | the distinct names, strictly ascending, exactly the names present |
| HeatRoads.Summary | src/preprocessing/validate_original_heat.py:34-44 | one row per distinct name, strictly ascending by name, each with its count of at least 1, and the counts sum to the number of names |
| HeatRoads.MatchedSummary | src/preprocessing/validate_original_heat.py:34-39 | the summary of the matched names: one row per distinct matched name, ascending, each row's count that name's number of matched edges, the counts summing to the number of matched edges |
| AddressMaster.Cell | src/data_collection/road_name_extraction.py:10 | with `dtype=str` a cell is its text, or missing exactly for pandas' default NA tokens |
| AddressMaster.ParseLine | src/data_collection/road_name_extraction.py:4-10 | a line is read exactly when it has at most 16 "\|"-separated fields; then 16 cells in column order, short lines padded with missing cells |
| AddressMaster.SplitJoined | src/data_collection/road_name_extraction.py:10 | splitting separator-free fields joined with "\|" gives back the fields |
| AddressMaster.ParseWrittenLine | src/data_collection/road_name_extraction.py:4-10 | a line of 16 pipe-free texts that are not NA tokens reads back as those 16 texts |
| AddressMaster.LongLineRefused | src/data_collection/road_name_extraction.py:10 | a line with 17 fields is a parser error |
| AddressMaster.ReadRecords | src/data_collection/road_name_extraction.py:10 | the file reads exactly when every non-blank line does; then each record has 16 cells, and there are no more records than lines |
| AddressMaster.ReadRecordsContents | src/data_collection/road_name_extraction.py:10 | a successful read holds exactly the parsed non-blank lines, one record per line, in order |
| AddressMaster.ReadRecordsFirstError | src/data_collection/road_name_extraction.py:10 | a failed read reports the error of the first non-blank line that does not parse |
| AddressMaster.FilterDistrict | src/data_collection/road_name_extraction.py:13 | an order-preserving subset: exactly the records whose 시군구 is 광진구, and as many as satisfy that |
| AddressMaster.CsvField | src/data_collection/road_name_extraction.py:16 | a missing cell is written empty, a plain text as is, and a text needing quotes inside quotes |
| AddressMaster.WrittenLines | src/data_collection/road_name_extraction.py:16 | `to_csv(index=False)`: the header line of the column names, then one line per record in order, with no index column |
| AddressMaster.HeaderFields | src/data_collection/road_name_extraction.py:16 | the header splits back into exactly the 16 names |
| AddressMaster.WrittenLineFields | src/data_collection/road_name_extraction.py:16 | a line of plain texts splits back into its 16 fields |
| AddressMaster.Report | src/data_collection/road_name_extraction.py:18 | the printed message contains the decimal count of kept records |
| AddressMaster.ReportedCount | src/data_collection/road_name_extraction.py:18 | the printed number reads back as the number of kept records |

## Left out

### Not modelled

- **Network and concurrency.** HTTP requests, the thread pool and the completion order of its futures, and the sleeps are not modelled. Attempt outcomes are a parameter `respond`, and the results to write are an input sequence. The backoff wait `backoff_factor ** attempt` is a float used only for sleeping.
- **File and console I/O.** Shapefile, NetCDF, CSV and text reads, encoding probing (the loops in accessibility_visualization.py:9-21 and Medical_approach_preprocessing.py:11-25), `os.makedirs`, and the progress prints are not modelled. File contents are inputs; the segment file's existence is the `content` field.
- **Geometry.**
  - `clip`, `sjoin`, `sjoin_nearest`, `overlay`, `dissolve`, centroids, `to_crs`, `total_bounds` and shapely's `shape`/`box` belong to the geometry libraries.
  - Their outputs are inputs here: the heights clipped into each cell, the `within` predicate, the overlaid edges, the centroid coordinates, the `project` function and the bounds box.
  - Shapes are opaque values carried along unchanged.
- **Trigonometry and square roots.** `np.degrees(np.arctan(x))` is a parameter `atanDeg` with the properties the proofs use: 0 at 0, strictly increasing, below 90. The cell diagonal `sqrt(100² + 100²)` is a parameter with diag * diag = 20000.
- **Floating point.** Values are exact reals, and NaN is a missing value (`None`). Rounding, infinities and `float // 500` on huge values are not modelled.
- **Plotting.** All plotting, basemap tiles, annotations and titles are left out.
- **Out-of-scope scripts.** These are not part of this model:
  - the thin join wrappers: total_visualization.py, pop_access_visualization.py, freeze_slope_visualization.py, freezing_extraction.py, visualize_weather_step1.py, region_selection_weather_step1.py;
  - the raster DSM scripts;
  - the bus-route and bus-stop network clients;
  - scoring.py and make_base.py;
  - the `src/analysis` entry wrappers.

### Contracts weaker than the source

- Ranking.Sort: pandas' default sort is not stable, while the model sorts with a stable insertion sort. Every property stated about values holds either way. The exact order among tied rows, and so which tied rows a head, tail or `nlargest` keeps, is the model's choice.
- Population.GroupKeys: GIDs are text, ordered by code point. When pandas reads GIDs as numbers, `groupby` orders them numerically before they are turned into strings.
- Population.MergePopulationWithGdf: the in-place rewrite of the caller's `df_pop["gid"]` to strings is not modelled, since GIDs are already text in the model.
- HeatRoads.LoadFilteredEdges: `str.contains(target)` treats the target as a regular expression. The model treats it as plain text, which agrees for road names without regex metacharacters. Reading the CSV (its encoding, and a duplicate 도로명 header, which pandas renames) is not modelled: the table comes in as a header and rows.
- RegionSelection.MergeGrid: the exact sequence of merged rows is stated for unique selected gids. With repeated gids the contract gives only the set of matching pairs; the row count and order then follow from Tables.InnerJoinMatchedLeftJoin. The same holds for MergeTop, MergeBottom and MergeBottomAsWritten.
- HeatRoads.HeatColumn: when several headers strip to 도로명, pandas returns a frame on which `dropna().unique()` fails. The model takes the first such column.
- AddressMaster.ParseLine: when the first line has more fields than names, pandas uses the extra leading fields as an index rather than raising. The model treats any over-long line as a parser error. Quoting on read is not modelled either.
- Dates.Parse: only the strict eight-digit form is accepted. `strptime` also accepts some shorter forms, such as one-digit months and days.
- ProtectedArea.ScoredGrid.FlagAddressCells: `.loc` uses index labels, and the model uses positions. The two agree on the freshly read frame, whose index is 0..n-1.
- Accessibility.Layer.SetCrsIfDiffers: a coordinate system is compared by its name text, as `to_string()` is.

## Findings

| source | as written | input that shows it | evidently intended | confidence | as-written member | corrected member |
|---|---|---|---|---|---|---|
| src/preprocessing/validate_original_heat.py:22-29 | the filter reads `edges["road_name"]`, but the edges come straight from `graph_to_gdfs` and nothing assigns that column | any road network: the frame has `name` and `geometry` but no `road_name`, so the filter raises KeyError | normalise `name` into `road_name` first, as original_heat_visualization.py:26 does, then match | high (not executed) | HeatRoads.MatchedAsWritten, HeatRoads.MatchFailsOnOsmEdges | HeatRoads.Matched, HeatRoads.MatchedKeeps |
| src/preprocessing/region_selection_a60_step2.py:61-62 | `sort_values("A60").tail(795)` keeps the 795 largest totals | 796 rows with A60 = 0, 1, …, 795: the tail keeps 1…795 and drops 0, the smallest | the bottom 795, i.e. `head(795)` of the ascending sort, as the comment at line 61 and the title at line 106 say | medium (not executed) | RegionSelection.Tail795AsWritten, RegionSelection.TailKeepsLargest, RegionSelection.MergeBottomAsWritten | RegionSelection.Bottom795, RegionSelection.BottomKeepsSmallest, RegionSelection.MergeBottom |
