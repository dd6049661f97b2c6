# Outbreak analytics dashboard: a verified model of the analytics core

This project models, in Dafny, the analytics core of a browser dashboard for
disease-outbreak surveillance records (`static/script.js`). It covers these parts:

- **Dataset and filters.** Rows are ingested from the parsed file and filtered by
  the disease, district, year and month drop-downs. The headline statistics are
  computed from the filtered rows.
- **Chart views.** There are eight of them:
  - the weekly time series, thinned to about 500 points;
  - the seasonal pattern by week of the year;
  - the top-30 district comparison;
  - the top-10 disease pie with an "Other" slice;
  - the per-district seasonality/trend scatter;
  - the one-week-lag scatter with its least-squares trend line;
  - the per-disease trend distribution;
  - the weekly healthcare-demand bars.
- **Resource simulator.** It builds a baseline from the history of one district and
  disease, compounds growth week by week, and derives bed and ICU demand and
  utilisation. It also finds the first week over capacity.
- **Timeline animation.** The rows are grouped into per-week frames, with
  per-district totals inside each frame. A playback state is driven by
  Play/Pause/Reset and by the ticks of a repeating timer, and each frame is
  rendered as a top-15 ranking.

Every JavaScript accumulation of the form "object keyed by a group key, filled by
`forEach`, read back with `Object.keys`/`Object.values`" is modelled by one
generic fold, `Grouping.GroupBy`. It produces groups in first-appearance order.
Every `Array.prototype.sort` is modelled by a stable insertion sort on a key with
a strict order, `Sorting.SortBy`. "Sort descending, then `slice(0, k)`" is
`Sorting.TopBy`. Missing numeric cells are `Option<real>` values. `d.X || 0` is
`Records.Value`, and `!= null` filtering is `Records.Defined`. Numbers are exact
reals and integers.

Modules, from the leaves up:

| file | module | content |
|---|---|---|
| wrappers.dfy | Wrappers | `Option`, `Result` |
| seqs.dfy | Seqs | sums, order-preserving filter, min/max |
| sorting.dfy | Sorting | stable keyed sort, top-k |
| grouping.dfy | Grouping | first-appearance grouping |
| records.dfy | Records | the record, measures, periods, ingest |
| filtering.dfy | Filtering | the drop-down filter |
| summary.dfy | SummaryStats | the statistics cards |
| downsample.dfy | Downsampling | time-series thinning |
| temporal.dfy | TemporalViews | time series, healthcare demand |
| categorical.dfy | CategoryViews | seasonal, districts, pie, correlation, trend box |
| lag.dfy | LagAnalysis | lag scatter and regression |
| simulation.dfy | Simulator | resource simulator |
| timeline.dfy | Timeline | frames, playback, ranking |

## Model

| member | source | states |
|---|---|---|
| Records.Ingest | static/script.js:107-109 | A record is kept exactly when its parsed row has a `Cases` column, and nothing else enters the dataset. |
| Records.IngestRowByRow | static/script.js:107-109 | Ingest distributes over concatenation and keeps the row order. One row is kept iff it has `Cases`. |
| Records.MeanOf | static/script.js:764 | `count > 0 ? sum / count : 0`: the mean times the count gives back the sum; zero rows give 0. |
| Records.Defined | static/script.js:787-789 | The defined values of a cell are never more than the rows. They are non-empty iff some row defines the cell. |
| Records.DefinedCells | static/script.js:787-789 | The defined values are the cells of exactly the rows that define them, one per row, in row order: value i is the cell of the i-th such row. |
| Records.Average | static/script.js:796-801 | The average is absent iff there are no values. Otherwise average × count equals the sum. |
| Records.PeriodBeforeIsStrictTotalOrder | static/script.js:736-739 | The (year, week) comparator is irreflexive, transitive and total on distinct periods. |
| Filtering.TextCriterion | static/script.js:422-424 | A text selection admits a cell iff the selection is the literal "All" or the cell is present and equal to it (`===`), so a missing cell never matches a named selection. |
| Filtering.SelectionFilter | static/script.js:414-427 | With the disease and district drop-downs read as text, a row survives the filter iff each selection is "All" or equals the row's cell, and the survivors keep their input order. |
| Filtering.ApplyFilter | static/script.js:422-427 | The filtered rows are an order-preserving subsequence. Each row is kept, with its multiplicity, iff it matches every criterion. |
| Filtering.ApplyFilterIdempotent | static/script.js:422-427 | Filtering the filtered rows again with the same criteria changes nothing. |
| Filtering.ApplyFilterAllIsIdentity | static/script.js:422-427 | With every criterion at "All" the filter returns the dataset unchanged. |
| SummaryStats.DistrictsOf | static/script.js:442 | The distinct district cells are exactly those some row carries, and there are at most as many as rows. |
| SummaryStats.DiseasesOf | static/script.js:443 | The distinct disease cells are exactly those some row carries, and there are at most as many as rows. |
| SummaryStats.Summarize | static/script.js:435-443 | No rows give all zeros, and one row gives its own cells (missing as zero) as the three totals; with SummaryTotalsAdd this fixes every total. The average trend is the missing-as-zero trend total over the row count. The district and disease counts are the sizes of DistrictsOf and DiseasesOf, between 1 and n for non-empty data. |
| SummaryStats.SummaryOrderIndependent | static/script.js:435-443 | Permuting the rows changes none of the headline figures. |
| SummaryStats.SummaryTotalsAdd | static/script.js:435-437 | The cases, bed-day and ICU totals of two batches add up. |
| SummaryStats.DistinctCellsPresent | static/script.js:442-443 | Non-empty data shows at least one district and one disease. |
| Downsampling.DownsampleStep | static/script.js:754 | The step is at least 1, and exactly 1 below 1000 points. |
| Downsampling.KeepEveryStepExact | static/script.js:755 | `filter((_, i) => i % step === 0)` keeps ⌈n/step⌉ points, point j being input j·step. |
| Downsampling.DownsampleKeeps | static/script.js:754-755 | The first point is always kept. At most 999 points are kept. Below 1000 points nothing is dropped. Point j is input j·step. |
| TemporalViews.GroupedPeriodsAscending | static/script.js:736-749 | Grouping the (year, week)-sorted rows yields periods in strictly ascending order. |
| TemporalViews.SecondSortKeepsOrder | static/script.js:750-753 | The second sort of the aggregated periods finds them already in order and leaves them unchanged. |
| TemporalViews.GroupedPeriodsSums | static/script.js:740-749 | Each period's entry holds the sums and count of exactly that period's rows. It is never empty. |
| TemporalViews.GroupedPeriodsCover | static/script.js:740-749 | A period is listed iff some row falls in it. |
| TemporalViews.PeriodAggregatesExact | static/script.js:736-753 | There is one aggregate per distinct period of the rows, in strictly ascending order, each exact over its period's rows. |
| TemporalViews.TimeSeriesShows | static/script.js:754-764 | Plotted point j is period j·step with its total cases and its per-row mean 3-week moving average. |
| TemporalViews.TimeSeriesOrdered | static/script.js:750-757 | The plotted periods are strictly ascending. |
| TemporalViews.TimeSeriesPoints | static/script.js:736-764 | The time series is never longer than the period list and always starts at the first period. Its points are exact and ascending. |
| TemporalViews.HealthcareBars | static/script.js:1014-1060 | There is one bar per period of the rows, ascending, holding the selected measure over that period's rows. A bed-days overlay is present iff the measure is cases. |
| CategoryViews.EarlierIsStrictTotalOrder | static/script.js:791 | The numeric comparator `a - b` on weeks is a strict total order. |
| CategoryViews.SeasonalEntries | static/script.js:780-801 | Each seasonal point is a non-zero week with rows. Its mean cases is over all rows of that week. Its mean seasonality is over the defined indices, absent iff none is defined. |
| CategoryViews.SeasonalAscending | static/script.js:791 | Weeks are listed in strictly ascending numeric order. |
| CategoryViews.SeasonalShowsOnlyRowWeeks | static/script.js:780-791 | A listed week is non-zero and some row has it. |
| CategoryViews.SeasonalShowsEveryRowWeek | static/script.js:780-791 | Every non-zero week some row has is listed. |
| CategoryViews.SeasonalWeeks | static/script.js:780-791 | A week is listed iff it is non-zero and some row has it. |
| CategoryViews.DistrictBarAt | static/script.js:826-855 | Every unranked bar is for a non-empty district some row names. It carries the selected measure over all that district's rows. |
| CategoryViews.DistrictComparisonBars | static/script.js:826-857 | Every shown bar is a named district's selected measure over all its rows. |
| CategoryViews.DistrictComparisonShape | static/script.js:856-857 | At most 30 bars, in descending order of value, no district twice. |
| CategoryViews.DistrictBarFor | static/script.js:826-855 | Every district some row names has an unranked bar with its exact value. |
| CategoryViews.DistrictComparisonRanking | static/script.js:856-857 | A district with rows but without a bar was ranked out. All 30 bars are then shown, each at least its value. |
| CategoryViews.DistrictComparisonComplete | static/script.js:856-857 | With at most 30 districts, every district with rows has a bar. |
| CategoryViews.DiseaseSliceAt | static/script.js:877-885 | A slice is a name's total cases over all its rows (missing label as "Unknown"), and that name has rows. |
| CategoryViews.TopSlices | static/script.js:886-890 | The kept slices number min(10, names), in descending order, each exact. |
| CategoryViews.DiseasePieShape | static/script.js:886-901 | The pie has at most 11 slices. The first ones are exact and descending. An 11th slice exists iff there are more than 10 names and the rest sum positive, and it is "Other" with that sum. |
| CategoryViews.SlicesNonNegative | static/script.js:878-882 | With non-negative cases every slice is non-negative. |
| CategoryViews.DiseaseSlicesTotal | static/script.js:878-885 | The per-name slices add up to the total cases of the rows. |
| CategoryViews.OtherNonNegative | static/script.js:891 | With non-negative cases the "Other" sum is non-negative. |
| CategoryViews.DiseasePieConservesCases | static/script.js:886-901 | With non-negative cases the pie accounts for every case exactly once. |
| CategoryViews.CorrelationPoints | static/script.js:917-938 | Each point is a named district. Its coordinates are the averages of the defined seasonality indices and trends over all its rows. |
| CategoryViews.CorrelationCovers | static/script.js:928-937 | A named district with at least one defined index and one defined trend gets a point. |
| CategoryViews.TrendBoxEntries | static/script.js:988-1002 | Each box holds exactly the defined trends of its disease's rows, in row order, and is non-empty. |
| CategoryViews.TrendBoxFor | static/script.js:995-1001 | A disease with a defined trend gets a box. |
| CategoryViews.TrendBoxCoverage | static/script.js:988-1002 | A disease has a box iff some of its rows defines a trend. |
| LagAnalysis.LagAligned | static/script.js:951-952 | x and y have one entry per row with a lag value, index-aligned: x is the lag and y the same row's cases. |
| LagAnalysis.CountLength | static/script.js:958 | The running count used as `n` equals the number of points. |
| LagAnalysis.ClosedFormSolves | static/script.js:965-966 | The closed-form slope and intercept satisfy both normal equations of least squares. |
| LagAnalysis.NormalEquations | static/script.js:957-966 | For the fitted line, the residuals sum to zero and are uncorrelated with x: it is the least-squares line. |
| LagAnalysis.FitTrend | static/script.js:957-968 | No line iff at most one point. With a zero denominator the fit is degenerate. Otherwise the fit is the least-squares line from min x to max x. |
| LagAnalysis.LagChart | static/script.js:950-968 | The scatter is the aligned lag/cases pairs. A trend line exists iff there are at least two of them, and then it is least-squares between min and max lag. |
| Simulator.ParametersOf | static/script.js:1085-1088 | Beds, ICU and growth default to 0. Weeks are the entered value, or 12 when it is missing or 0 (`parseInt(v) \|\| 12`), so never 0. |
| Simulator.BaselineOf | static/script.js:1111-1113 | Each baseline average times the history length is the missing-as-zero total. |
| Simulator.PerCase | static/script.js:1114-1115 | `avg / (avgCases \|\| 1)`: the ratio times average cases is the average, and a zero average divides by 1. |
| Simulator.ProjectedStep | static/script.js:1122 | One loop step multiplies the projection by the growth factor: week k becomes week k+1. |
| Simulator.ProjectionTrend | static/script.js:1119-1122 | Zero growth keeps cases constant. Positive growth strictly increases them, and growth between -100% and 0 strictly decreases them. |
| Simulator.DemandFollowsBaseline | static/script.js:1123-1124 | Projected bed days and ICU are the baseline demand compounded like cases. They are 0 when average cases are 0. |
| Simulator.Round | static/script.js:1128-1130 | `Math.round` returns the integer within half a unit, with halves rounded up. |
| Simulator.CasesNeverFall | static/script.js:1119-1130 | With a non-negative baseline and a growth rate of at least 0%, the rounded case count stored for week k+1 is never below that of week k. |
| Simulator.Utilisation | static/script.js:1133-1134 | For non-zero capacity the utilisation times capacity is 100 × load. For zero capacity it is +∞, −∞ or NaN exactly as the load is positive, negative or zero. |
| Simulator.OverCapacityMeans | static/script.js:1171-1172 | Utilisation over 100 iff load exceeds a positive capacity. With zero capacity it holds iff the load is positive. |
| Simulator.Project | static/script.js:1118-1136 | One projection per simulated week, numbered from 1. Week k holds the baseline compounded k times, its derived demand, and the capacities and utilisations. With a non-negative baseline and growth, the stored case counts never decrease. |
| Simulator.FirstCritical | static/script.js:1171-1172 | `find`: none iff no week is critical. Otherwise it is a critical week with no critical week before it. |
| Simulator.RunSimulation | static/script.js:1083-1145 | It fails with a missing selection iff a drop-down is empty, and with no history iff no row has that district and disease. Otherwise it returns the parameters, the baseline over exactly that history, and the projected weeks. |
| Timeline.DatasetAfterPlay | static/script.js:1378-1384 | Play reorders the dataset in place only for "All". The result is a permutation, and a single disease leaves the dataset unchanged. |
| Timeline.PlayKeepsSummary | static/script.js:1378-1384 | After the in-place sort the headline statistics are unchanged. |
| Timeline.PlayKeepsFrames | static/script.js:1378-1384 | Preparing the frames again from the sorted dataset gives the same frames. |
| Timeline.FramesAscending | static/script.js:1381-1414 | Frames come in strictly ascending (year, week) order. |
| Timeline.FramesCover | static/script.js:1378-1414 | There is a frame for a period iff some animated row falls in it. |
| Timeline.FrameRows | static/script.js:1378-1414 | Each frame accumulates exactly the animated rows of its period, in their original order, and has at least one row. |
| Timeline.DistrictEntries | static/script.js:1399-1410 | Each district entry of a frame has rows and holds its cases, bed days and ICU sums over them. No district appears twice. |
| Timeline.DistrictEntriesCover | static/script.js:1399-1406 | Every district of a frame's rows has an entry. |
| Timeline.FrameConservesCases | static/script.js:1399-1410 | A frame's district entries add up to the frame's total cases. |
| Timeline.Initial | static/script.js:70-72 | The page starts with no frames and no live timer. |
| Timeline.Stop | static/script.js:1436-1441 | Stop clears the held timer, leaves no timer live, and keeps the frames and the position. |
| Timeline.Start | static/script.js:1419-1434 | Start clears any held timer before starting a new one, so exactly one timer is live afterwards. |
| Timeline.Play | static/script.js:1321-1347 | Play reports "no data" iff there are no frames, and then touches no timer. Otherwise it restarts at frame 0 with exactly one live timer. Validity is preserved either way. |
| Timeline.Pause | static/script.js:1349-1353 | Pause leaves no live timer and keeps the frame position. |
| Timeline.Reset | static/script.js:1355-1358 | Reset leaves no live timer and rewinds to frame 0. |
| Timeline.Tick | static/script.js:1422-1433 | Only the held timer can fire. Before the end it renders the current frame and advances by one. Past the end it stops, leaving no timer live. |
| Timeline.PlaysThrough | static/script.js:1422-1433 | A running animation renders each remaining frame once, in order. The tick after the last frame stops it. |
| Timeline.PlayRendersAllFrames | static/script.js:1344-1346 | After Play starts, ticks render frames 0..n-1 in order, then the timer stops. |
| Timeline.BarsOf | static/script.js:1453-1464 | One bar per district of the frame, carrying the metric's value. |
| Timeline.RankingTop | static/script.js:1464-1466 | min(15, districts) bars in descending order. Shown and hidden bars together are exactly the frame's bars. No hidden bar outranks a shown one. |
| Timeline.Progress | static/script.js:1450 | The progress width lies in (0, 100] and is 100 exactly at the last frame. |
| Grouping.AddToGroupsEffect | static/script.js:743-748 | One accumulation step either appends to the existing group of its key or opens a new group at the end. Keys stay distinct. |
| Grouping.GroupByExact | static/script.js:740-749 | Keys are distinct. Each group's members are the input rows with its key, in input order. A key has a group iff some row has it. |
| Grouping.GroupMembers | static/script.js:740-749 | Group i holds exactly the rows with its key and is never empty. |
| Grouping.GroupBySortedAscending | static/script.js:736-749 | Grouping rows already sorted by key yields groups in strictly ascending key order. |
| Grouping.GroupByKept | static/script.js:780-790 | When rows are skipped by a test the key decides, each group holds all of the input's rows with its key. |
| Grouping.GroupByKeptCovers | static/script.js:780-790 | Every row that is not skipped has a group for its key. |
| Grouping.GroupByConservesSum | static/script.js:878-882 | Accumulating per key loses and duplicates nothing: the group sums add up to the total. |
| Sorting.SortByPermutes | static/script.js:736-739 | Sorting is a permutation of its input. |
| Sorting.SortBySorted | static/script.js:736-739 | The output is ordered by the comparator. |
| Sorting.SortByStable | static/script.js:736-739 | Rows with equal keys keep their input order (the sort is stable). |
| Sorting.SortByOfSorted | static/script.js:750-753 | Sorting an already ordered sequence leaves it unchanged. |
| Sorting.SortByDistinctAscending | static/script.js:791 | Sorting values with distinct keys yields strictly ascending keys. |
| Sorting.GreaterIsStrictTotalOrder | static/script.js:856 | The comparator `b.value - a.value` is a strict total order on values. |
| Sorting.TopBy | static/script.js:856-857 | Keeps min(k, n) elements in descending order of value. |
| Sorting.TopBySplits | static/script.js:856-857 | Kept and dropped elements together are the input. Every kept element is at least every dropped one, and nothing is dropped when n ≤ k. |
| Sorting.TopByDroppedSum | static/script.js:889-891 | The kept and the dropped sums add up to the total. |
| Seqs.SumOfPermutation | static/script.js:435-437 | A `reduce` sum does not depend on the order of the rows. |
| Seqs.FilterIdempotent | static/script.js:422-427 | Filtering twice by the same test is filtering once. |
| Seqs.FilterIsSubsequence | static/script.js:422-427 | A filter's result is an order-preserving subsequence of its input. |
| Seqs.Min | static/script.js:967 | `Math.min(...xs)` is an element of xs and at most every element. |
| Seqs.Max | static/script.js:968 | `Math.max(...xs)` is an element of xs and at least every element. |

## Behaviour worth noting

The model follows the code in each of these cases.

- **Time-series thinning.** The step is `Math.max(1, Math.floor(n / 500))`, so the
  chart keeps up to 999 points.
- **Per-case ratios.** The code divides by `avgCases || 1`, which only replaces an
  average of exactly 0. An average of 0.5 still divides by 0.5.
- **Moving-average and trend means.** The time-series and healthcare views, the
  district comparison and the statistics cards average these with `|| 0`. A
  missing value counts as zero and the division is by the number of rows. Only
  the seasonal, correlation and trend-box views skip missing values.
- **Simulator history.** The simulator reads its history from the full dataset
  (`rawData`), not from the filtered rows.
- **Play and Pause.** Play always restarts at frame 0; there is no resume from
  Pause.
- **Play with no frames.** When the chosen disease has no rows, Play replaces the
  frames with an empty list but does not stop a running timer. The next tick of
  that timer stops it (`Timeline.Play`, `Timeline.Tick`).
- **Lag trend line with a zero denominator.** When n > 1 and every lag value is
  equal, the code divides by zero. The model returns `Degenerate(min, max)` with
  no slope rather than IEEE infinities.
- **Null `Cases` in the lag scatter.** The lag y values take `d.Cases` raw. A
  `null` there acts as 0 in the JavaScript sums, which is what `Records.Value`
  gives. The model also plots such a row as the point (x, 0), where Plotly
  draws no marker for a `null` y.

## Left out

- The DOM, Plotly calls, titles, colours and the welcome/error HTML: presentation only.
- The CSV parsing itself, the file-type check and the data-summary box: external
  parsing. The model starts from parsed rows.
- The export of a simulation report: formatting only.
- The ML forecast and comparison calls to the prediction service: network I/O
  outside the core.
- The `speed` of the timer and real time: playback is modelled as a sequence of
  timer firings. Timer handles are natural numbers handed out in increasing order.
- IEEE floating point: all arithmetic is on exact reals. Rounding error,
  overflow and `NaN` propagation are not modelled. Zero-capacity utilisation is
  modelled by an explicit `Ratio` value (+∞, −∞, NaN).
- `parseInt`/`parseFloat` of the input boxes: the simulator takes the parsed
  values, with `None` standing for `NaN`.
- JavaScript object-key ordering: object keys are assumed to keep insertion
  order. This fails for integer-like keys, which JavaScript lists first in
  numeric order. The seasonal view sorts its week keys anyway. A district or
  disease name that is an integer literal would be listed out of first-appearance
  order in the other views.
- `String(key)` collisions: in the timeline frames a `null` district shares the
  object key "null" with a district literally named "null", and an absent district
  (a short row) shares the key "undefined" with a district named "undefined". A
  disease literally named "Other" can appear twice in the pie. The model keeps
  named districts apart from missing ones. The statistics count uses a `Set`,
  which applies no conversion, and keeps them apart as well.
- SummaryStats.DistrictsOf, SummaryStats.DiseasesOf and Timeline.DistrictEntries:
  a `null` cell and an absent cell (a short row) are both `None` in the model, so
  they count once and share one frame entry. The code's `Set` holds `null` and
  `undefined` as two values, and its frames key them as "null" and "undefined",
  two entries.
- Missing week numbers and years: weeks and years are integers in the model. The
  code's `week || 0` sort key and its `"W" + week` group label coincide for
  integer weeks. A row without a year would be grouped under a `null-W…` or
  `undefined-W…` key and compared with `a.year - b.year`, which is `NaN`; the
  model cannot represent such a row.
- The trend line's y endpoints `m * x + b`: display only. The line's fit and its
  x extent are modelled.
- Ranking labels: the code labels bars with object-key strings; the model uses the
  district option values.
- LagAnalysis.FitTrend: states the least-squares property for exact reals. It does
  not model the IEEE result when the denominator is zero (see "Behaviour worth
  noting" above).
