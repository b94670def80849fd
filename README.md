# Crime hotspot dashboard: the aggregation layer

This project models the aggregation layer of a Streamlit crime-hotspot dashboard in Dafny. That layer takes an in-memory table of crime incidents and turns it into the counts, rates and rankings the dashboard shows. Each incident is already labelled with a spatio-temporal cluster id, and `-1` marks "noise" (no hotspot).

Two parts of the source are modelled:

- The query functions of `dashboard/utils.py`:
  - the time window;
  - the hotspot filter;
  - the overview figures;
  - the hourly counts;
  - the top-N category ranking;
  - the arrest rate.
- The aggregations `dashboard/app.py` computes inline between its chart calls:
  - the sidebar's hotspot list;
  - the average per hotspot;
  - the weekday-by-hour heatmap grid;
  - the category percentage table;
  - arrest rates by category;
  - the cluster-size ranking and the largest hotspot;
  - the peak hour.

Files and modules:

- `seqs.dfy` (`Seqs`): the pandas building blocks over sequences.
  - boolean-mask selection (`Filter`);
  - per-key counting (`KeyCount`);
  - distinct values in first-occurrence order or sorted;
  - `head(n)`.
- `groups.dfy` (`Groups`): count tables (`groupby().size()`, `value_counts()`).
  - their ranking by descending count (`sort_values`, `nlargest`);
  - the first maximum (`idxmax`).
- `records.dfy` (`Records`): the incident record and the sidebar selector.
  - the noise label and the distinct cluster ids and categories;
  - `Percent`, the rate computation shared by every percentage: `part / whole * 100` on exact counts, and 0 for an empty whole.
- `utils.dfy` (`Utils`): the six functions of `dashboard/utils.py`. They are pure functions over `seq<Record>`.
- `app.dfy` (`App`): the pure inline aggregations of `dashboard/app.py`.
- `heatmap.dfy` (`Heatmap`): the heatmap block.
  - `BuildHeatmap` is a method. It allocates the 7 × 24 grid from the pivot.
  - It then runs the source's loop over the hours 0..23, which writes a zero column for every hour missing from the pivot.

Modelling choices:

- A record carries `date`, `hour`, `weekday`, `category` (`primary_type`), `arrest` and `cluster` (`st_cluster`).
- Timestamps are integer nanoseconds. The window's cutoff is `now - days * NanosPerDay`, and `now` is a parameter.
- The weekday is a field with 0 = Monday. `Records.DayName` gives its `dt.day_name()`, and grid row `d` is labelled `DayOrder[d]`, the source's `day_order`.
- Percentages are exact `real`s computed from the integer counts.
- Where pandas leaves the order of equal counts to its implementation, the model picks a deterministic order. No contract depends on that order.

The hourly table is not zero-filled: `hourly_distribution` (`dashboard/utils.py:19-20`) is a plain `groupby("hour").size()`, so it has a row only for the hours present (`Utils.HourlyDistributionKeys`). Only the heatmap grid zero-fills its hour columns (`Heatmap.BuildHeatmap`).

## Model

| member | source | states |
|---|---|---|
| Utils.ApplyTimeFilter | dashboard/utils.py:3-5 | the result holds exactly the records dated at or after `now - days`; there is no upper bound, so records dated after `now` stay |
| Utils.TimeFilterKeepsOrder | dashboard/utils.py:5 | the window distributes over concatenation, so it keeps the selected rows in their original order |
| Utils.FilterByCluster | dashboard/utils.py:14-17 | "All" returns the table unchanged; a cluster id keeps exactly the rows with that label, the noise label included |
| Utils.ClusterFilterKeepsOrder | dashboard/utils.py:17 | the cluster filter distributes over concatenation, so the original order is kept |
| Utils.ClusterFilterIdempotent | dashboard/utils.py:14-17 | filtering by the same selector twice equals filtering once |
| Utils.ClusterViewSize | dashboard/utils.py:17 | a cluster's view has as many rows as the cluster has records |
| Utils.GetOverviewMetrics | dashboard/utils.py:7-12 | total is the row count; hotspots is the number of distinct non-noise ids, at most the number of non-noise rows, and 0 iff every row is noise; noise_pct is 0 for an empty table, otherwise #noise / total * 100; it lies in [0, 100], is 0 iff there is no noise, and is 100 iff the table is non-empty and all noise |
| Utils.NoiseSplit | dashboard/utils.py:9-10 | the hotspot rows and the noise rows together make up the table |
| Utils.NoHotspotsMeansAllNoise | dashboard/utils.py:10 | there is no non-noise cluster id iff every row is noise |
| Utils.HourlyDistribution | dashboard/utils.py:19-20 | the hour keys are strictly ascending, and each row's count is the number of records at that hour, at least 1 |
| Utils.HourlyDistributionKeys | dashboard/utils.py:19-20 | the table has a row for an hour iff some record has that hour, so no hour is zero-filled |
| Utils.HourlyDistributionTotal | dashboard/utils.py:19-20 | the counts sum to the row count |
| Utils.CategoryCounts | dashboard/utils.py:23 | one row per distinct category, keys distinct, each count the number of rows of that category, counts summing to the row count |
| Utils.TopCrimeTypes | dashboard/utils.py:22-28 | min(top_n, #categories) rows for top_n >= 0, and #categories + top_n (floored at 0) for a negative top_n; categories distinct; counts non-increasing; each count is that category's number of rows |
| Utils.TopCrimeTypesLeftOut | dashboard/utils.py:23 | a category left out has no more rows than the last category kept |
| Utils.TopCrimeTypesComplete | dashboard/utils.py:23 | when top_n admits every category, each category has a row and the counts sum to the row count |
| Utils.ArrestRate | dashboard/utils.py:30-33 | 0 for an empty table, otherwise #arrests / rows * 100; it lies in [0, 100], is 0 iff there is no arrest, and is 100 iff the table is non-empty and every row is an arrest |
| Records.ClusterIdList | dashboard/app.py:218 | `sorted` of the distinct non-noise ids: strictly ascending, exactly the non-noise ids present, no more of them than non-noise rows |
| Records.CategoryList | dashboard/utils.py:23 | the distinct categories, each once, exactly those present |
| Records.Percent | dashboard/utils.py:9 | within [0, 100] when part <= whole; 0 iff part is 0; 100 iff whole > 0 and part == whole |
| Seqs.Filter | dashboard/utils.py:5 | the boolean-mask selection keeps exactly the elements satisfying the mask, and is no longer than its input |
| Seqs.FilterAllOrNone | dashboard/utils.py:9 | the selection keeps every element iff all of them qualify, and none iff none does |
| Seqs.FilterConcat | dashboard/utils.py:17 | the selection distributes over concatenation |
| Seqs.FilterIdempotent | dashboard/utils.py:17 | selecting twice with the same mask equals selecting once |
| Seqs.KeyCountOfFilter | dashboard/app.py:646-648 | a mask that keeps every row of a key leaves that key's count unchanged |
| Seqs.KeyCountOfFilterAtMost | dashboard/app.py:613-615 | a mask never raises a key's count |
| Seqs.SortedDistinct | dashboard/app.py:218 | strictly ascending, with exactly the values of its input |
| Seqs.DistinctInOrder | dashboard/utils.py:23 | no duplicates, with exactly the values of its input |
| Seqs.Head | dashboard/utils.py:23 | `head(n)` is the prefix of length min(n, len) for n >= 0; a negative n drops the last -n rows |
| Groups.GroupCounts | dashboard/utils.py:20 | row i is key i with the number of elements carrying that key |
| Groups.GroupCountsRows | dashboard/utils.py:20 | over distinct keys, the table has distinct keys, one row per key and no other keys |
| Groups.GroupCountsTotal | dashboard/utils.py:20 | over distinct keys that cover every element, the counts sum to the number of elements |
| Groups.RankByCount | dashboard/app.py:650 | `sort_values(ascending=False)`: counts non-increasing, and a permutation of the input |
| Groups.RankByCountTotal | dashboard/app.py:650 | sorting keeps the total of the counts |
| Groups.RankByCountKeys | dashboard/app.py:650 | sorting a table with distinct keys keeps the keys distinct |
| Groups.TopK | dashboard/app.py:620 | the `n` largest rows, as `nlargest(8)` selects them and as `value_counts().head(n)` keeps them: `min(n, len)` rows for `n >= 0`, and for a negative `n` `head`'s rule of dropping the `-n` smallest (`nlargest` is only called with a positive `n`: 5 at `dashboard/app.py:557`, for the pie chart left out with the figures, and 8 at `dashboard/app.py:620`; there it agrees with `head(n)` of the ranked rows); counts non-increasing; every row is drawn from the input |
| Groups.TopKLeftOut | dashboard/app.py:620 | a row left out has a count no larger than the last row kept |
| Groups.TopKKeys | dashboard/app.py:620 | over distinct keys, the kept rows have distinct keys |
| Groups.TopKTotal | dashboard/app.py:583 | the kept rows never count more than the whole table; when no row is dropped they are a permutation with the same total |
| Groups.FirstMax | dashboard/app.py:677 | `idxmax`: a valid position whose count is maximal and strictly larger than every count before it |
| App.HotspotOptions | dashboard/app.py:217-223 | "All" first, then one option per distinct non-noise id of the time-filtered table, ids strictly ascending |
| App.HotspotOptionsDistinct | dashboard/app.py:218-222 | a cluster is offered iff it is a non-noise id present; no option appears twice; the noise label is never offered |
| App.OfferedHotspotView | dashboard/app.py:217-225 | "All" leaves the table unchanged; an offered hotspot's view is non-empty, has one hotspot and a noise share of 0 |
| App.AvgPerHotspot | dashboard/app.py:290 | 0 when there is no hotspot, otherwise the value whose product with the hotspot count is the total |
| App.AvgPerHotspotOfOverview | dashboard/app.py:290 | fed with the overview figures of line 254, the average is 0 iff there is no hotspot, and otherwise at least 1 |
| App.CrimeStatsTable | dashboard/app.py:582-591 | one row per input row with its category and count; the percentage is count / (sum of the counts shown) * 100, within [0, 100], and every percentage is 0 when that sum is 0 |
| App.CrimeSharesSumTo100 | dashboard/app.py:583-587 | with a positive denominator the percentages sum to exactly 100 before rounding |
| App.CrimeStatsTableExample | dashboard/app.py:583-587 | counts 2 and 1 read 200/3 % and 100/3 % |
| App.CategoryShareTable | dashboard/app.py:582-589 | over the top-10 categories of line 524: min(10, #categories) rows, each count that category's number of rows, at least 1; on a non-empty table the percentages sum to 100 |
| App.TopTenDenominator | dashboard/app.py:583 | the denominator is at most the row count, positive on a non-empty table, and equal to the row count when there are at most ten categories |
| App.ArrestByType | dashboard/app.py:609-620 | min(8, #categories) rows; each row's category is present; total is its number of rows (at least 1); arrests is its number of arrest rows, at most total; arrest_rate is arrests / total * 100 within [0, 100] |
| App.ArrestByTypeRanked | dashboard/app.py:620 | totals non-increasing and categories distinct |
| App.ArrestByTypeLeftOut | dashboard/app.py:620 | a category left out of the eight has no more rows than the last one kept |
| App.CategorySize | dashboard/app.py:611-615 | a category's `count` of `arrest` is the size of that category's own rows |
| App.CategoryArrests | dashboard/app.py:611-615 | a category's `sum` of `arrest` is the number of arrests among that category's own rows |
| App.ArrestRowIsCategoryRate | dashboard/app.py:619 | each row's rate is `arrest_rate` applied to that category's rows alone |
| App.ClusterSizes | dashboard/app.py:644-650 | one row per distinct non-noise id; sizes non-increasing; each size is that cluster's number of records, at least 1 |
| App.ClusterSizesCover | dashboard/app.py:644-650 | ids distinct, every non-noise id has a row, the sizes sum to the number of non-noise records, and sizes plus noise rows make up the table |
| App.LargestHotspot | dashboard/app.py:681 | 0 iff there is no hotspot; no hotspot has more records; when positive, some hotspot has exactly that many |
| App.PeakHour | dashboard/app.py:677 | the hour occurs in the data, no hour has more records, and every earlier hour has strictly fewer (a tie goes to the smallest hour); only reached for a non-empty selection, since lines 303-305 stop the page on an empty one |
| Heatmap.BuildHeatmap | dashboard/app.py:394-415 | a fresh 7 × 24 grid whose cell (d, h) is the cell of the padded pivot; its rows are labelled Monday to Sunday, each once, and row `d` carries the day name of weekday `d` |
| Heatmap.DayOrderLabels | dashboard/app.py:404-410 | `day_order` has seven distinct names, and the only row labelled with a record's day name is the row of its weekday |
| Heatmap.HeatCellContents | dashboard/app.py:410-414 | a filled cell holds the number of records of its weekday and hour; a weekday present in the data has no gap; a cell is a gap iff its weekday is absent while its hour occurs |
| Heatmap.HeatmapColumn | dashboard/app.py:396-415 | each column of the grid sums to the number of records at that hour |
| Heatmap.HeatmapTotal | dashboard/app.py:396-415 | when every hour is in 0..23, the grid accounts for every record exactly once |

## Left out

- Streamlit page set-up, CSS, widgets, tabs, `st.metric` and every Plotly figure are left out. They only display values.
- `dashboard/data_loader.py` is left out because it is CSV I/O, datetime parsing and caching. Records are assumed well formed: the column check of the loader becomes the `Record` type.
- `datetime.now()` is a parameter `now`, and `timedelta(days=…)` is `days * NanosPerDay`.
- Deriving the weekday from the timestamp is left out (calendar arithmetic). Each record carries its weekday instead, and `Records.DayName` names it.
- Float behaviour is left out and exact rationals are used instead:
  - `.round(2)` and the string formatting of percentages;
  - NaN coercion in `_safe_int` / `_safe_float`;
  - the rounding of "Avg per Hotspot" for display.
- `get_cluster_hotspots`, `get_daily_crime_trend`, `get_hour_crime_distribution`, `get_day_week_distribution`, `get_arrest_statistics` and `get_location_stats` are imported by `dashboard/app.py`. Their bodies are not part of this model.
- The default `top_n=5` of `top_crime_types` is not modelled: `Utils.TopCrimeTypes` takes `topN` explicitly, and the only caller passes 10 (`dashboard/app.py:524`).
- The order among equal counts in `value_counts`, `nlargest` and `sort_values` is left unspecified; the model picks one order and no contract depends on it.
- In the same way, `groupby("primary_type")` lists categories sorted by name before `nlargest(8)`. The model starts from first-occurrence order, which only affects ties.
- `crime_df` is re-sorted twice for display (ascending for the bar chart, descending for the table). The model keeps the rows in rank order; the percentages do not depend on order.
- The map scatter, the raw-data sample, "Avg Crimes/Day" and the "Crime Types" `nunique` metric are left out. The first three only display rows or divide by the window length, and the category count is `Utils.CategoryCounts`' length.
- Latitude and longitude are never aggregated, so `Record` has no coordinates.
- `df_filtered["day_name"] = …` adds a column to the frame in place. The model computes the weekday per record instead of mutating the table.
- Dates that fail to parse (NaT) are left out: every `Record` has an integer timestamp, so such a row cannot be represented.
- Heatmap.HeatmapTotal: it is stated only for hours in 0..23, because the final column selection drops any other hour.
