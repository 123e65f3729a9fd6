# Day-ahead auction clearing and price sensitivity

This project models the clearing and price-sensitivity code of a day-ahead energy auction, and proves properties of the model. The order book is a table of orders. Each order has an hour, a side (`Sell` or `Purchase`), a price and a volume. For each hour:

- the sell orders are sorted by ascending price and the purchase orders by descending price;
- each side becomes a polyline of (volume, price) vertices;
- the two polylines are intersected;
- the intersection is reduced to a clearing pair: `smv`, the system marginal volume, and `smp`, the system marginal price.

A *sensitivity probe* at a volume step `delta` then reads the price of a sell order near volume `smv + delta` and subtracts `smp`. Two versions of this code exist:

- `python/sensitivity.py`: the functions `price_sensitivity`, `f_clearing` and `sensitivity_df`. `sensitivity_df` builds a per-hour report with base, peak and off-peak mean rows.
- `python/sensitivity_opt.py`: the class `EnergyMarketAnalyzer`, with `get_orders`, `calculate_clearing`, `calculate_price_sensitivity` and `generate_sensitivity_report`.

The two probes differ, and the most important results here say where they agree and where they do not.

Modules (one per file):

- `Wrappers` (wrappers.dfy): `Option`, which stands for NaN and `None`.
- `Orders` (orders.dfy): orders, the per-hour side filter, the sort by price (a stable insertion sort), the volume filters, and the list of hours in order of first appearance.
- `Geometry` (geometry.dfy): the intersection result. Its kind is `Point`, `Line`, `Multi` or `Other`. The result is computed outside the model and is passed in as a function `meet`, which stands for shapely's `intersection`. The module also reduces a result to `(smv, smp)`.
- `Rounding` (rounding.dfy): Python's `round(x, d)` on exact reals, rounding half to even.
- `Frames` (frames.dfy): the pandas operations the reports use. These are `unique()`, the NaN-skipping `mean()`, column assignment, row selection by label, `concat` and `round`.
- `Sensitivity` (sensitivity.dfy): the first version. The report builder is a method with loops, as in the source.
- `SensitivityOpt` (sensitivity_opt.dfy): the second version. It is a class whose table `df` is a `const`: the constructor sets it and no method changes it. The report builder is a method with a loop.
- `Comparison` (comparison.dfy): the two versions compared, including concrete order books on which they disagree.

## Model

| member | source | states |
|---|---|---|
| Orders.Bucket | python/sensitivity.py:22 | The orders of one hour and side. An order is in the result exactly when it is in the table with that hour and side, and it appears as many times as in the table. |
| Orders.SortByPrice | python/sensitivity.py:38-39 | `sort_values(by='Price')`. The result is sorted by price, ascending or descending, and is a permutation of the input. |
| Orders.CurveOrders | python/sensitivity.py:38-39 | The sell list rises in price and the purchase list falls. Each is a permutation of the matching orders, and holds exactly the orders with that hour and side. |
| Orders.MaxVolume | python/sensitivity.py:24 | `max` of the volumes: some order has it, and no order has more. |
| Orders.MinVolume | python/sensitivity.py:24 | `min` of the volumes: some order has it, and no order has less. |
| Orders.WithVolume | python/sensitivity.py:27 | The orders passing the volume test (`>= v`, or for the second version's negative steps `<= v`). The head is the first order of the list that passes. |
| Orders.HeadIsCheapest | python/sensitivity.py:27 | On a list in ascending price order, `.iloc[0]` of a non-empty selection is a cheapest order among those that pass the test. |
| Orders.CheapestMonotone | python/sensitivity.py:27 | A cheapest order reaching a larger volume costs at least as much as one reaching a smaller volume. |
| Orders.SelectionIgnoresTies | python/sensitivity.py:22 | Two price-sorted arrangements of the same orders select the same price. So the way `sort_values` breaks ties does not change a probe. |
| Orders.HourRowsInFirstAppearanceOrder | python/sensitivity.py:59 | `unique()` of the hours lists each hour once, covers every row's hour, and keeps the order of first appearance. |
| Geometry.MinX | python/sensitivity.py:47 | `min(coords.xy[0])`: some coordinate has this volume, and none has less. |
| Geometry.MinY | python/sensitivity.py:48 | `min(coords.xy[1])`: some coordinate has this price, and none has less. |
| Geometry.Clearing | python/sensitivity.py:45-55 | For a Point: `round(x, 1)` and `round(y, 2)`. For a LineString or MultiPoint: the least volume and, separately, the least price over the coordinates. |
| Geometry.ClearingIsUnique | python/sensitivity.py:45-55 | An intersection has at most one clearing pair. |
| Geometry.MinimaNeedNotFormAVertex | python/sensitivity.py:47-48 | The two minima are taken separately, so the pair need not be a coordinate. The lemma gives an example. |
| Geometry.FlatTierClearsAtLeftEnd | python/sensitivity.py:47-48 | If every coordinate has the same price, the clearing is the leftmost coordinate, a point of the intersection. |
| Rounding.NearestEven | python/sensitivity.py:54-55 | Gives an integer within one half of its input. On an exact half it gives the even neighbour. |
| Rounding.NearestEvenIsUnique | python/sensitivity.py:54-55 | Only one integer meets that rule. |
| Rounding.RoundIsNearestOnGrid | python/sensitivity.py:54-55 | `round(x, d)` has at most `d` decimals and lies within half a unit of the last decimal of `x`. |
| Rounding.RoundMeetsRule | python/sensitivity.py:54-55 | `Round` meets Python's rounding rule. |
| Rounding.RoundRuleIsUnique | python/sensitivity.py:54-55 | Every value that meets the rounding rule is `Round`. |
| Rounding.RoundOnGrid | python/sensitivity.py:90 | A value that already has at most `d` decimals is left unchanged. |
| Rounding.RoundTwice | python/sensitivity.py:78-90 | Rounding to `d2` digits after rounding to `d1 <= d2` digits changes nothing. |
| Rounding.RoundMonotone | python/sensitivity.py:54-55 | Rounding never reverses the order of two values. |
| Rounding.RoundCell | python/sensitivity.py:90 | Rounding a cell keeps a missing value missing, and turns a present value `x` into the value Python's rounding rule gives for `x` at `d` decimals. |
| Frames.Distinct | python/sensitivity.py:59 | `unique()`: every result value is in the input, every input value is in the result, and none repeats. |
| Frames.DistinctKeepsMembers | python/sensitivity.py:59 | `unique()` keeps exactly the values of its input. |
| Frames.DistinctKeepsFirstAppearanceOrder | python/sensitivity.py:59 | `unique()` lists values in the order of their first appearance. |
| Frames.DistinctOfNoDuplicates | python/sensitivity.py:59 | A list without repeats is its own `unique()`. |
| Frames.DistinctSnoc | python/sensitivity.py:67 | Assigning a column by name: a new name goes last, and an existing name keeps its place. |
| Frames.Present | python/sensitivity.py:78 | `dropna()`: no longer than the column, and empty exactly when every cell is missing. |
| Frames.PresentKeepsValues | python/sensitivity.py:78 | `dropna()` keeps each value as often as the column holds it as a present cell, and adds nothing else. |
| Frames.Mean | python/sensitivity.py:78 | `mean(skipna)`: missing exactly when every cell is missing. |
| Frames.MeanBetween | python/sensitivity.py:78 | A mean lies between any lower and upper bound of the present values. |
| Frames.PickKeepsTaggedRows | python/sensitivity.py:81 | `loc[isin(group)]` and `loc[~isin(group)]` keep exactly the rows whose label's membership in the group matches: each value appears as often as such rows hold it. |
| Frames.PickPartitions | python/sensitivity.py:81-85 | The rows inside and outside the group split the column: the two multisets add up to the column's. |
| Frames.PickSplitsPresent | python/sensitivity.py:81-85 | The present values of the two parts have counts and sums that add up to the column's. |
| Frames.MeanOfPartition | python/sensitivity.py:77-86 | If one group has no values, the all-rows mean equals the other group's mean. Otherwise it lies between the two group means. |
| Frames.RoundedMeanOfPartition | python/sensitivity.py:77-90 | The same relation holds after each mean is rounded. |
| Frames.NoRowsOutsideSet | python/sensitivity.py:81 | If every label is in the group, the complement has no rows and no mean. |
| Sensitivity.FClearing | python/sensitivity.py:35-56 | `f_clearing(df, hour)` is the clearing pair of the hour's intersection. |
| Sensitivity.Probe | python/sensitivity.py:24-27 | Defined exactly when some sell volume is above `v` and some is below it. Then it is the price of a cheapest order with volume `>= v`, less `smp`. |
| Sensitivity.ProbeCases | python/sensitivity.py:24-27 | The guard on line 24 fails exactly when `v` is strictly inside the volume range. In that case the line 27 selection is non-empty and its head is a cheapest reaching order. |
| Sensitivity.StrictlyInside | python/sensitivity.py:24 | The guard is false exactly when some volume is above `v` and some is below it. |
| Sensitivity.ReachingOrderExists | python/sensitivity.py:27 | Below the largest volume, `.iloc[0]` reads an existing row, and that row is a cheapest one. |
| Sensitivity.ProbeMonotone | python/sensitivity.py:24-27 | A larger volume never gives a cheaper probe. |
| Sensitivity.Sells | python/sensitivity.py:22 | The hour's sell orders in ascending price order: exactly the sell orders of that hour. |
| Sensitivity.PriceSensitivity | python/sensitivity.py:20-27 | `price_sensitivity(df, delta, hour)` is defined exactly when `smv + delta` is strictly inside the sell volume range. Then it is a cheapest reaching price less `smp`, with `>=` whatever the sign of `delta`. |
| Sensitivity.SensitivityMonotone | python/sensitivity.py:20-27 | `price_sensitivity` never decreases as `delta` grows. |
| Sensitivity.ColumnList | python/sensitivity.py:62-70 | The assignments in program order: smv, then `-d_n` to `-d_1`, then smp, then `+d_1` to `+d_n`. |
| Sensitivity.AssignOne | python/sensitivity.py:67 | One column assignment keeps the table's invariant: names in first-assignment order, and each column the one computed for its name. |
| Sensitivity.AssignColumns | python/sensitivity.py:66-70 | Each `for delta in ...` loop assigns its columns in order and keeps that invariant. |
| Sensitivity.HourTable | python/sensitivity.py:61-70 | One row per hour in first-appearance order. The column names are the `unique()` of the assignment list, and each column is computed for its name. |
| Sensitivity.RoundCellTwice | python/sensitivity.py:78-90 | The second rounding on line 90 leaves the aggregate cells unchanged. |
| Sensitivity.AggregatedCells | python/sensitivity.py:77-90 | A column of the assembled report: the three aggregates (all rows, peak rows, off-peak rows), then the hour cells, each rounded to 2 decimals. |
| Sensitivity.SensitivityDf | python/sensitivity.py:58-90 | Rows are base, peak, off_peak, then `"H" + hour` in first-appearance order. The columns are in assignment order. Each column holds its rounded aggregates and rounded hour cells. |
| Sensitivity.ColumnOrder | python/sensitivity.py:62-70 | With distinct steps, the columns are exactly smv, `-d_n` to `-d_1`, smp, `+d_1` to `+d_n`. |
| Sensitivity.AggregateRowsPartition | python/sensitivity.py:77-86 | Peak and off_peak split the hour rows. So base equals whichever one has a value, or lies between the two. |
| Sensitivity.AllOffPeakLeavesPeakEmpty | python/sensitivity.py:80-81 | If every product is off-peak, the peak row is missing. |
| SensitivityOpt.Headings | python/sensitivity_opt.py:74-76 | The assignments `Δ+d`, `Δ-d` for each step in turn. |
| SensitivityOpt.HeadingsOfSteps | python/sensitivity_opt.py:74-76 | A heading is assigned exactly when its step is among the deltas. |
| SensitivityOpt.Relevant | python/sensitivity_opt.py:62-65 | Missing exactly when no sell order passes the sign-dependent volume test. Otherwise it is the price of a cheapest passing order, less `smp`. |
| SensitivityOpt.EnergyMarketAnalyzer.constructor | python/sensitivity_opt.py:11-15 | Stores the table. `df` is a `const`, so no method changes it. |
| SensitivityOpt.EnergyMarketAnalyzer.GetOrders | python/sensitivity_opt.py:17-24 | `None` exactly when no order has that hour and side. Otherwise the matching orders, ascending in price for Sell and descending for Purchase. |
| SensitivityOpt.EnergyMarketAnalyzer.CalculateClearing | python/sensitivity_opt.py:26-48 | Absent exactly when a side has no orders or the result kind is not handled. Otherwise it is the clearing pair of the intersection. |
| SensitivityOpt.EnergyMarketAnalyzer.CalculateClearingAsWritten | python/sensitivity_opt.py:30-34 | As written, the call raises exactly when the hour has a sell order, and otherwise returns no clearing. |
| SensitivityOpt.EnergyMarketAnalyzer.AsWrittenNeverClears | python/sensitivity_opt.py:33 | Every hour the corrected version clears raises as written. |
| SensitivityOpt.EnergyMarketAnalyzer.ClearingNeedsSells | python/sensitivity_opt.py:58-60 | A clearing implies sell orders, so the second missing-orders test never fires. |
| SensitivityOpt.EnergyMarketAnalyzer.CalculatePriceSensitivity | python/sensitivity_opt.py:50-65 | Missing when there is no clearing. Otherwise it is missing exactly when no sell order passes the test (`>= smv + delta` for `delta >= 0`, `<= smv + delta` below). Otherwise it is a cheapest passing price less `smp`. |
| SensitivityOpt.EnergyMarketAnalyzer.AssignOne | python/sensitivity_opt.py:75-76 | One assignment keeps the report's invariant. |
| SensitivityOpt.EnergyMarketAnalyzer.GenerateSensitivityReport | python/sensitivity_opt.py:67-78 | One row per hour in first-appearance order. The columns are `Δ+d` then `Δ-d` per step, a repeated step keeping its first place. A column exists exactly when its step was given. Each column is the probe of each hour. |
| Comparison.ClearingsAgree | python/sensitivity_opt.py:40-44 | With both sides present and a handled result kind, both versions give the same clearing. |
| Comparison.ReadsTheSameOrder | python/sensitivity_opt.py:62-65 | Where the first probe is defined, the `>=` selection of the second reads the same price. |
| Comparison.SameSelection | python/sensitivity_opt.py:62-65 | The same holds for the second version's test at any `delta >= 0`. |
| Comparison.ProbesAgreeAbove | python/sensitivity_opt.py:62-65 | For `delta >= 0`, wherever `price_sensitivity` is defined, the second version returns the same value. |
| Comparison.SampleSellList | python/sensitivity.py:38 | In the sample book, the sell list is the two sell tiers in rising price order. |
| Comparison.SamplePurchaseList | python/sensitivity.py:39 | In the sample book, the purchase list is the two purchase tiers in falling price order. |
| Comparison.SampleIntersection | python/sensitivity.py:42-44 | The sample curves (100, 10)-(300, 20) and (100, 20)-(300, 10) meet at the single point (200, 15). |
| Comparison.SamplePointRounding | python/sensitivity.py:54-55 | Rounding keeps the crossing point: `round(200, 1)` is 200 and `round(15, 2)` is 15. |
| Comparison.SampleClearing | python/sensitivity_opt.py:43-44 | Both sides of the sample hour have orders, the intersection is a Point, and both versions clear the hour at (200, 15). |
| Comparison.SampleProbeAt150 | python/sensitivity.py:24-27 | At volume 150, the first probe reads the tier of volume 300 and gives 20 - 15 = 5. |
| Comparison.SampleProbeAt300 | python/sensitivity.py:24 | At the largest volume, the first probe is missing because the guard is strict. |
| Comparison.SampleRelevantBelow150 | python/sensitivity_opt.py:62 | At or below 150, the second probe reads the tier of volume 100 and gives 10 - 15 = -5. |
| Comparison.SampleRelevantAbove300 | python/sensitivity_opt.py:62 | At or above 300, the second probe reads the tier of volume 300 and gives 5. |
| Comparison.ProbesDisagreeBelow | python/sensitivity_opt.py:62 | At `delta = -50`, the first version gives 5 and the second gives -5. |
| Comparison.ProbesDisagreeAtTheTop | python/sensitivity.py:24 | At `delta = 100`, the first version is missing and the second gives 5. |

## Left out

- The shapely intersection. It is a foreign geometry library with floating-point robustness behaviour, so its result enters as the parameter `meet`. The model does not derive which kind of result two curves produce.
- Shapely's own failure modes. The model does not capture that a `LineString` of fewer than two vertices (an hour with one order on a side, python/sensitivity.py:42-43) raises. Nor does it capture that shapely's multi-part geometries have no `.coords`: reading it raises, so the MultiPoint branches (python/sensitivity.py:49-51, python/sensitivity_opt.py:40-42) raise whenever they are reached. The model reads a multipoint's coordinates the way the code evidently intends.
- `plot_clearing` in both files. It is matplotlib rendering, and python/sensitivity.py:100 refers to undefined names.
- The notebook imports and glue.
- Float semantics. Values are exact reals. `Round` is half-to-even on the exact value, while Python rounds the nearest binary float. The means are exact.
- Orders.SortByPrice: the insertion sort is stable, and pandas' default sort is not. The model fixes the stable order for the probes and for the curves alike. Orders.SelectionIgnoresTies shows that a probe's price does not depend on tie order. The curves do: equal-priced orders with different volumes give a different vertex sequence under another tie order (python/sensitivity.py:42-43, python/sensitivity_opt.py:36-37), and possibly a different intersection. The model does not capture that.
- Sensitivity.PriceSensitivity, Sensitivity.FClearing and Sensitivity.SensitivityDf: the first version's crash paths are preconditions, not behaviour. These are `max` or `min` of an empty sell set (line 24) and `smv`/`smp` left unbound for an unhandled result kind (lines 45-56). They also include `min` of an empty coordinate list.
- SensitivityOpt.EnergyMarketAnalyzer.CalculateClearing: the precondition `Clearable` excludes a line or multipoint result without coordinates, where `min` raises.
- The default argument `deltas=[500,1000,2000]` of `sensitivity_df` (python/sensitivity.py:58) is not modelled: every operation takes its steps as a parameter.
- The step values are integers, so that `str(delta)` in the column names is injective.
- The final reorder on line 89 (`product` first) is not a separate step. The row labels are kept apart from the numeric column names, so `product` always comes first.
- The commented-out alternative probe (python/sensitivity.py:31-34) is dead code.
- SensitivityOpt.EnergyMarketAnalyzer.CalculatePriceSensitivity reads the truth test of line 59 as a `None` check, for the same reason as line 33 under Findings. `ClearingNeedsSells` shows that this check never fires.
- The first version's report rounds every cell to 2 decimals, on line 90. This includes `smv`, whose value was already rounded to 1 decimal for a Point. The model follows that code. A reading with volumes kept at 1 decimal is not modelled.
- The first version's probe is missing at a volume equal to the least or the largest sell volume, because line 24 uses `<=` and `>=`. The model follows that code. A reading that leaves those two points defined is not modelled.
- Sensitivity.SensitivityMonotone states monotonicity in the signed step. For negative steps this means a larger magnitude never selects a dearer order. The first version does not give the stronger "never cheaper for a larger magnitude of either sign".

## Findings

| source | as written | input that shows it | evidently intended | confidence | as-written member | corrected member |
|---|---|---|---|---|---|---|
| python/sensitivity_opt.py:33 | `if not sell_orders or not purchase_orders` asks pandas for the truth value of a DataFrame, which raises `ValueError`. So every hour with sell orders raises, and no clearing is ever returned. | Any table with a sell order for the hour | A test for the `None` that `get_orders` returns for an empty side | not executed | SensitivityOpt.EnergyMarketAnalyzer.CalculateClearingAsWritten | SensitivityOpt.EnergyMarketAnalyzer.CalculateClearing |
