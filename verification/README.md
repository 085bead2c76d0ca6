# Olist sales dashboard — data core in Dafny

The dashboard in `main.py` joins the Olist e-commerce tables and draws charts
from the result. The joins at main.py:30-34 are inner joins, and payments and
reviews are joined on the order id. So the joined table holds one row per
order item, repeated once for each pair of its order's payment row and review
row, and an order without a payment or a review is absent. Almost all of the script is
Streamlit and Plotly glue. The part modelled here is the pure logic applied
to the joined table, which the model takes as a `seq<Row>`:

- bucketing purchase hours into four day parts;
- the inclusive purchase-date filter and its default bounds;
- the distinct-order KPI;
- the delay flag;
- the Repeater / NonRepeater customer classification;
- sales per customer type and each type's share of the total;
- per-category and per-state sales, sorted in descending order and cut to the top N;
- the top-30 category selector;
- selecting high-volume categories against the median category size;
- the weekday × day-part heatmap of distinct orders, pivoted and reindexed onto a fixed 7×4 grid;
- the category/state drill-down with its empty-result branch.

Modules:

- `Wrappers`: `Option`.
- `Seqs`: an order-preserving `Filter` and the subsequence relation.
- `Orders`: the `Row` record, day parts, the delay flag, sales total and distinct orders.
- `DateFilter`: the date-range filter.
- `CustomerTypes`: repeaters and sales by customer type.
- `Ranking`: group-by, descending sort and top N.
- `HighVolume`: median and threshold.
- `Heatmap`: grouping, pivot, reindex and drill-down.

Modelling choices:

- A row's purchase day is an integer day number.
- The hour and weekday are already decoded from the timestamp.
- Category and delivery dates are optional, because pandas holds `NaN`/`NaT` there.
- Prices are exact, non-negative `real`s, as item prices are.
- The model takes the joined table as it is. Every sum over the price column inherits the fan-out of the joins: an item of an order with two payment rows counts twice. The sales KPI, sales per customer type and the category and state rankings all sum this way, as the dashboard does.
- Where pandas produces `NaN`, the model gives `None`. This covers a 0/0 share (with non-negative prices a zero total makes every part zero), the median of no values, and a heatmap cell with no orders.
- pandas' group-by drops rows whose key is missing, and so does the model.

## Model

| member | source | states |
|---|---|---|
| Orders.TimeOfDay | main.py:193-201 | Morning exactly for hours 5–11, Afternoon exactly for 12–17, Evening exactly for 18–21, and Night for every other hour, including hours outside 0–23 (the catch-all `else`) |
| Orders.DayPartsPartitionTheDay | main.py:193-201 | over the 24 hours of a day the parts cover 7, 6, 4 and 7 hours, so every hour falls in exactly one part |
| Orders.IsDelayed | main.py:146 | a row is delayed iff both dates are present and delivery is strictly after the estimate; a missing date never counts as delayed |
| Orders.TotalPrice | main.py:51 | the sales KPI, summed over the joined rows (so over the payment and review fan-out), is never negative, is zero exactly when every row's price is zero, and is at least any single row's price |
| Orders.CountDistinctOrders | main.py:52 | the KPI equals the number of distinct order ids, is at most the number of rows, and is zero exactly for an empty table |
| DateFilter.FilterByDate | main.py:47 | every kept row's day lies in the inclusive range; every in-range row is kept with its multiplicity; nothing is invented; table order is preserved (the result is a subsequence) |
| DateFilter.DayBounds | main.py:38-39 | no bounds exactly for an empty table; otherwise the bounds enclose every row's day and both are attained by some row |
| DateFilter.WideRangeKeepsAll | main.py:47 | a range that covers every row's day returns the table unchanged |
| DateFilter.DefaultRangeKeepsAll | main.py:38-47 | with the slider left at its default (min, max), the filter returns the table unchanged |
| DateFilter.RangeSplitRows | main.py:47 | splitting a range at any day partitions the filtered rows (multiset union of the two halves) |
| DateFilter.RangeSplitSales | main.py:47-51 | the sales KPI of a range is the sum of the KPIs of its two halves |
| DateFilter.ThreeOrderExample | main.py:47-52 | on three orders in successive months, a range covering only the middle one keeps exactly that row, with sales 20 and one order |
| CustomerTypes.CountOrdersPerCustomer | main.py:164-165 | the per-customer table has one entry per customer, holding that customer's number of distinct order ids |
| CustomerTypes.RepeaterIffTwoOrders | main.py:164-167 | a customer is a repeater iff the table holds two of their rows with different order ids |
| CustomerTypes.ClassifyRows | main.py:164-170 | one label per row; a row is labelled Repeater iff its customer has more than one distinct order id in the table |
| CustomerTypes.SingleOrdersMeanNoRepeaters | main.py:164-170 | if every customer has one distinct order id, every row is NonRepeater |
| CustomerTypes.PriceOfSplits | main.py:176-177 | under any classification, Repeater sales plus NonRepeater sales equal the total sales |
| CustomerTypes.SalesByType | main.py:176-178 | one entry per customer type that occurs, the types distinct and Repeater's entry first (the group-by's key order); each entry's sales are that type's revenue; the entries add up to the total; with nonzero total every share is that type's sales divided by the total and the shares sum to 1, and with zero total every entry's sales are zero, so every share is 0/0 and undefined (NaN) |
| Ranking.GroupRows | main.py:63 | one group per present key, keys distinct, each group's total and row count equal to the sums over that key's rows, every count at least 1 |
| Ranking.GroupTotalsPartitionSales | main.py:63-71 | group totals add up to the sales of the keyed rows and group counts to the number of keyed rows; for states (never missing) the totals add up to the whole sales KPI |
| Ranking.SortDesc | main.py:63 | the result is in non-increasing order of the measure and is a permutation of the input |
| Ranking.Ranked | main.py:71 | the sorted group-by: non-increasing, one group per key with exact totals and counts |
| Ranking.Top | main.py:63-73 | the top N is the prefix of the ranking of length min(N, number of keys); it is ordered, keys distinct and present, totals exact, and no key left out outweighs a key kept |
| Ranking.TopCategories | main.py:63-65 | at most 20 categories, fewer only when fewer exist, distinct and in non-increasing order of sales, each with its exact sales, and no category left out sold more than one shown |
| Ranking.TopStates | main.py:71-73 | at most 10 customer states, fewer only when fewer exist, distinct and in non-increasing order of sales, each with its exact sales, and no state left out sold more than one shown |
| Ranking.CategoryOptions | main.py:232 | the category selector lists min(30, number of categories) distinct categories in non-increasing order of row count, and no category left out has more rows than one listed |
| HighVolume.SortAsc | main.py:123 | the counts in ascending order, as a permutation of the input |
| HighVolume.CountsPermutation | main.py:123 | how many counts lie below or above a value does not depend on their order |
| HighVolume.Median | main.py:123 | no median exactly for no values; for an odd number of values the median is one of them, and for an even number it is the mean of two of them |
| HighVolume.MedianBalances | main.py:123 | at most half of the values lie strictly below the median and at most half strictly above it |
| HighVolume.MedianMiddles | main.py:123 | for an even number of values the median is the mean of a middle pair: a lower value with fewer than half the values below it and at most half above, and an upper value with at most half below and fewer than half above |
| HighVolume.MiddlePairIsSorted | main.py:123 | a middle pair is exactly the two middle values of the sorted values, so the even-case median is determined |
| HighVolume.MedianCount | main.py:123 | the median of the per-category row counts (`sales_quantity`) is undefined exactly when no row has a category; otherwise at most half of the categories have fewer rows than it and at most half more, and it is one category's row count for an odd number of categories; for an even number it is the mean of the two middle category counts (a middle pair stated over categories) |
| HighVolume.CategoryMiddlePairUnique | main.py:123 | for an even number of categories there is only one middle pair of category counts, so the even-case clause of `MedianCount` fixes the median (counts 1 and 3 give 2, not 1) |
| HighVolume.HighVolumeCategories | main.py:123-124 | a category is high-volume iff it occurs, a median exists, and its row count is strictly greater than 1.5 × the median |
| HighVolume.CountAtThresholdExcluded | main.py:124 | for any three categories with counts 2, 2 and 3 the median is 2, and the count 3, which equals 1.5 × 2, does not qualify |
| HighVolume.CountAboveThresholdIncluded | main.py:124 | with counts 2, 2 and 4 the threshold is 3 and exactly the category with 4 rows qualifies |
| HighVolume.RowsOfCategories | main.py:126 | `isin` over a category list: exactly the rows whose category is in the list, with their multiplicities, in table order; rows without a category are dropped |
| HighVolume.FilteredByQuantity | main.py:123-126 | the installment chart's rows are exactly the table's rows whose category is high-volume, each with all its copies, in table order |
| Heatmap.OrdersAreLabels | main.py:217-218 | the row order names Monday..Sunday and the column order names the four day-part labels, each weekday and part exactly once |
| Heatmap.Pivot | main.py:211-214 | one entry per (day name, part label) group present, holding that group's number of distinct order ids (at least 1) |
| Heatmap.Reindex | main.py:219 | the grid has the given row and column orders; a cell has a value iff its label pair is in the pivot, and then it is the pivot's value |
| Heatmap.CellCount | main.py:211 | the label-free reference: no value iff no row has that weekday and day part, otherwise the number of distinct orders there |
| Heatmap.Grid | main.py:211-219 | the heatmap is 7×4 and the cell at (day i, part j) equals the reference count for the i-th weekday and j-th day part |
| Heatmap.GridCountsEveryOrderOnce | main.py:211-219 | when all rows of an order share its purchase instant, the cells add up to the distinct-order KPI |
| Heatmap.Selected | main.py:240-241 | the drill-down keeps exactly the rows matching both the selected category and state, in table order and with their multiplicities; with no selection nothing matches |
| Heatmap.Drill | main.py:240-249 | the warning branch is taken iff no row matches both selectors; otherwise the result is the heatmap of the matching rows |
| Heatmap.SubTableCellsWithin | main.py:211-219 | for any sub-table of the table, each cell count is at most the table's, and a cell empty in the table is empty in the sub-table |
| Heatmap.DrillCellsWithinFullGrid | main.py:246-249 | a drill-down cell is empty wherever the full heatmap's cell is empty and never exceeds it |

## Left out

- CSV loading and `@st.cache_data` memoisation (main.py:9-25): file I/O.
- Building the category translation dictionary (main.py:11, 27). Only its effect is kept: the category is an `Option<string>`.
- The five-way merge itself (main.py:30-34). The joined table is the model's input, with any fan-out already in it, and every sum over it counts the repeated rows, as the dashboard does.
- Timestamp parsing (`to_datetime`, `.dt.date`, `.dt.day_name`, `.dt.hour`; main.py:37, 143-144, 190, 203). Day, hour and weekday arrive already decoded.
- Monthly sales (main.py:56-57): needs calendar-month extraction from a timestamp. The grouping itself is the same group-by-sum as `Ranking.GroupRows`.
- Mean-based aggregates and normalised value counts (main.py:53, 79, 102-105 `average_price`, 148, 171, 173). These are floating-point averages.
- The price > 100 histograms (main.py:87-89): presentation filters feeding charts only.
- The alphabetical state selector list (main.py:236). The selected state is a parameter of `Heatmap.Drill`.
- All Streamlit widgets, layout and Plotly figures, including the empty-data warning text (main.py:40-45, 59-60, 91-98, 107-120, 129-140, 221-225, 251-255).
- Ranking.SortDesc: the order among groups of equal weight is left open. pandas' `sort_values` does not promise stable ordering of ties, so the contract states ordering and permutation only.
- HighVolume.Median: the values are exact `real`s. pandas computes the median and the `1.5 ×` threshold in floating point, whose rounding is not modelled.
- CustomerTypes.SalesByType: sales and shares are exact `real`s. pandas sums and divides in float64, so its shares need not add up to exactly 1.
- Orders.IsDelayed: dates are integer instants. Sub-second timestamp precision and time zones are outside the model.
- Heatmap.GridCountsEveryOrderOnce: holds under the assumption that all rows of one order share a purchase timestamp. This is true of the joined table, because the timestamp comes from the orders table; the model states it as a precondition.
