# US sales dashboard: verified model of the aggregation pipeline

The dashboard loads a table of order lines, derives a few columns, and feeds
five views from small group-by aggregations. This project models that data
pipeline as pure Dafny functions over an already-loaded sequence of rows.

- **Loading** (`Sales`): a raw row already carries the city label, product,
  quantity, month name, weekday name and hour. Loading adds the state code,
  which `StateCode.Extract` reads from the city label. The first label with no
  state code fails the whole load.
- **State code** (`StateCode`): the text between the first `(` and the first
  `)` after it, as the lazy pattern `\((.*?)\)` captures it. There is no result
  when the label has no such pair, because taking `[0]` of an empty match list
  fails.
- **Group-by with a sum** (`Aggregate`): one generic single-pass aggregation.
  The monthly, ranking and map views use it, and it is specified against an
  independent per-key sum, `KeyTotal`. The hourly histogram instead counts
  with its own `Hourly.ValueCounts`, as `value_counts()` does at app.py:207.
- **Views**:
  - `Monthly.MonthlyQuantity`: quantity per month for the selected city.
  - `Ranking.Rank`: top or bottom N products by an integer measure.
  - `Hourly.HourlyCounts`: the hour-of-day histogram of one weekday.
  - `Geography.StateTotals`: quantity per state, for the map.
  - `Geography.CityTotals`: quantity per city, for the map's markers.

The monthly series is not zero-filled (app.py:109-110): the code only groups,
sums and filters, so a month in which the city has no orders is absent, not 0.
The calendar order of months only sorts the chart axis (app.py:111, 114), and the
model leaves it out with the rest of the rendering.

## Model

| member | source | states |
|---|---|---|
| StateCode.Extract | app.py:79 | A state code exists exactly when some `(` is followed later by a `)`. When it exists, it is the text strictly between the first `(` and the first `)` after it, and it contains no `)`. It is the only text that fits that description. |
| StateCode.ExtractLabel | app.py:79 | For a label `"<City> (<ST>)"` whose city has no `(` and whose code has no `)`, extraction returns exactly `<ST>`. |
| StateCode.SampleLabels | app.py:79 | `"Boston (MA)"` yields `"MA"`, and `"Portland (ME)"` yields `"ME"`. |
| Sales.Load | app.py:74-79 | Loading succeeds exactly when every city label has a state code. On success the table has the same rows in the same order, with the extracted state added to each. On failure the error names the first row whose label has no code. |
| Aggregate.GroupTotals | app.py:229 | The group-by lists every key of the table exactly once and no other key. Each total is the sum of the measure over the rows with that key. |
| Aggregate.GroupTotalsCount | app.py:229 | The group-by has exactly as many entries as the table has distinct keys. |
| Aggregate.GroupTotalsPreserveSum | app.py:229 | For any filter on keys, summing the selected groups equals summing the rows whose key passes the filter. |
| Aggregate.GroupTotalsSum | app.py:229 | The group totals add up to the total of the measure over the whole table. |
| Hourly.DayHours | app.py:206 | The hour column of the selected day has one entry per row of that day. Each hour occurs as often as that day has rows at that hour. |
| Hourly.ValueCounts | app.py:207 | Value counts list exactly the values that occur. Each count is the number of occurrences. |
| Hourly.Reindex | app.py:207 | Laying counts over the hours 0..n-1 gives exactly n entries. An hour with a count keeps it, and an hour without one gets 0, never dropped. |
| Hourly.HourlyCounts | app.py:206-207 | The result has exactly 24 entries. The entry for hour h is the number of rows of the selected day at hour h, so an hour with no orders shows 0. When every hour lies in 0..23, the entries sum to the day's row count. A day with no rows gives 24 zeros. |
| Hourly.HourSumIsDayCount | app.py:206-207 | When every hour lies in 0..23, the per-hour counts over 0..23 of a weekday add up to its number of rows. |
| Hourly.NoOrdersOnDay | app.py:206-207 | A weekday with no rows has a count of 0 at every hour. |
| Ranking.ProductTotals | app.py:135 | Each product of the table appears exactly once, with the sum of the measure over its rows, and no other product appears. |
| Ranking.Sort | app.py:135 | The sorted totals are ordered in the requested direction: non-increasing for the largest, non-decreasing for the smallest. |
| Ranking.SortPermutes | app.py:135 | Sorting only reorders: the result is a permutation of the product totals. |
| Ranking.Rank | app.py:149 | There are min(max(N, 0), number of distinct products) entries, ordered non-increasing for the largest and non-decreasing for the smallest. Each entry is a distinct product of the table with its true total. No product left out should rank before a selected one. |
| Ranking.TopSellers | app.py:135 | The top-N view by quantity has min(N, products) entries, N ≤ 0 giving none, ordered non-increasing by total. Each entry is a distinct product of the table with its true quantity total, and no product left out has a larger total than a selected one. |
| Ranking.LowestSellers | app.py:163 | The bottom-N view by quantity has min(N, products) entries, N ≤ 0 giving none, ordered non-decreasing by total. Each entry is a distinct product of the table with its true quantity total, and no product left out has a smaller total than a selected one. |
| Ranking.BottomIsNegatedTop | app.py:176 | The bottom-N ranking of a measure is the top-N ranking of the negated measure, with signs flipped back. The two directions are mirror images, ties included. |
| Monthly.MonthlyQuantity | app.py:109-110 | The result holds only the selected city's months, each at most once. A month appears exactly when the city has at least one row in it. Its value is the sum of quantity over the city's rows in that month. An unknown city gives an empty result. |
| Monthly.ForCity | app.py:110 | Keeping the selected city lists, under its month, only groups that belong to that city, with their totals unchanged. Every group of that city appears. |
| Monthly.MonthlyAddsUpToCity | app.py:109-110 | The monthly values of a city add up to the total quantity that city ordered. |
| Geography.StateTotals | app.py:229 | Each state of the table appears exactly once, with the sum of its quantities, and the totals add up to the quantity of the whole table. |
| Geography.CityTotals | app.py:231 | Each city label of the table appears exactly once, with the sum of its quantities. This is the "Total orders" of the city's marker. The totals add up to the quantity of the whole table. |
| Geography.StatesComeFromLabels | app.py:229 | On a loaded table, a state has a total exactly when it was extracted from some row's city label. |

## Left out

- The reactive UI layer is not modelled: `reactive.calc` caching, the `render_*` decorators, `input.*()` and the layout and CSS. It is framework plumbing. The selected city, day and N are plain parameters.
- All rendering is left out: Altair, Plotly and `style_plotly_chart`, the seaborn heatmap and its `"h:00"` labels, and the folium markers and choropleth. These are calls into external libraries.
- File reading is left out: the sales CSV and the GeoJSON of state boundaries. A loaded table is a parameter.
- Timestamp parsing and calendar derivation are left out: `to_datetime`, `month_name`, `day_name` and `.dt.hour`. The month, weekday and hour are given fields of the raw row.
- The value measure, quantity × price, is floating point. The value rankings (app.py:149, 176) are covered only through the generic integer measure of `Ranking.Rank`, not with floating-point totals.
- The per-city markers average latitude and longitude in floating point (app.py:231). Only their summed quantity is modelled, by `Geography.CityTotals`.
- Ranking.Rank: ties break by first appearance of the product in the table. pandas' `nlargest`/`nsmallest` break ties by the group order of its sorted keys, and the model does not claim to match that order.
- Aggregate.GroupTotals: groups come in order of first appearance, whereas pandas' `groupby` sorts its keys. The monthly and per-state results therefore contain the same entries as the source, possibly in a different row order.
- Hourly.HourlyCounts: the result sums to the day's row count only when every hour lies in 0..23. That always holds for hours taken from a timestamp. An hour outside that range would be dropped by the reindex, as it is in the source.
- StateCode.Extract: the pattern's `.` does not match a line break. City labels are taken to contain none.
- Sums are unbounded integers throughout (`Aggregate.Total`, `Aggregate.KeyTotal`, `Aggregate.GroupTotals` and every view built on them). pandas accumulates the integer `quantity_ordered` sums in 64-bit integers (app.py:109, 135, 163, 229, 231), which wrap silently on overflow. That wrap-around is not modelled, so every total here is the exact sum.
- An empty or missing N from the numeric input (where `nlargest(None)` fails) is not modelled. N is an integer, and N ≤ 0 gives an empty ranking, as pandas does.
