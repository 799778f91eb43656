# SpaceX launch dashboard: data queries

This project models the data logic behind the SpaceX launch records dashboard
(`spacex-dash-app.py`). The dashboard loads a table of launches once. Each
row has a launch site, a payload mass, a 0/1 outcome class and a booster
version category. Two callbacks recompute chart data whenever the site
dropdown or the payload slider changes:

- the **payload scatter chart** gets the rows whose payload mass lies in the
  slider's closed range `[low, high]`, narrowed to the chosen site unless the
  dropdown says `"ALL"`;
- the **outcome pie chart** gets, for `"ALL"`, one slice per site holding the
  sum of its 0/1 class column (its number of successful launches); for one
  site, the `value_counts()` of that site's class column, relabelled
  `"Success"` (class 1) and `"Failed"` (class 0).

The dropdown lists `"All Sites"` (value `"ALL"`) first, then every distinct
site once, in sorted order.

The table is an immutable `seq<LaunchRecord>`. Every query is a pure
function over it, with lemmas stating what the query returns.

Modules, one file each:

- `Series` (series.dfy): boolean-mask row selection `df[mask]` as
  `Select`, and `Series.unique()` as `Unique`, with their general laws:
  soundness and completeness of a mask, order preservation, chaining of
  masks, idempotence, and first-appearance order.
- `Launches` (launches.dfy): the row type, the `"ALL"` sentinel, the
  columns, the site, payload-range and outcome masks, and success and
  failure counts.
- `Scatter` (scatter.dfy): `PayloadFilter`, the data of `get_scatter_chart`,
  and `MassBounds`, the column minimum and maximum that form the slider's
  starting value.
- `Pie` (pie.dfy): the pie chart's summing of `values` per distinct `names`
  as `PieSlices`; `value_counts()` as `ValueCounts`; the class-to-label map;
  and both branches of `get_pie_chart` (`AllSitesPie`, `SitePie`,
  `OutcomePie`).
- `TextOrder` (textorder.dfy): Python's `str` ordering, code point by code
  point with a proper prefix first, and `sorted()` as an insertion sort.
- `Dropdown` (dropdown.dfy): the option list.
- `Scenario` (scenario.dfy): a three-launch table worked through both
  callbacks.

The model follows the code in these behaviours, which a reader might not expect:

- For one site, `value_counts()` lists only the class values that occur. A
  site whose launches all succeeded gets a single `"Success"` slice, not a
  `"Failed"` slice of 0.
- The selection is a plain string compared with `"ALL"`. A site literally
  named `"ALL"` would be taken for the all-sites view.
- Any range is accepted. A range with `low > high` yields no rows; nothing
  fails.

## Model

| member | source | states |
|---|---|---|
| `Series.Select` | spacex-dash-app.py:112-117 | mask indexing keeps only rows meeting the mask and never adds rows |
| `Series.SelectCounts` | spacex-dash-app.py:112-117 | a row meeting the mask is kept exactly as often as it occurs in the input; any other row is kept zero times |
| `Series.SelectPositions` | spacex-dash-app.py:112-117 | the kept rows are the input rows at exactly the positions where the mask holds, in increasing position order |
| `Series.SelectThenSelect` | spacex-dash-app.py:112-117 | applying two masks one after the other equals applying their conjunction once |
| `Series.SelectIdempotent` | spacex-dash-app.py:112-117 | applying a mask to its own result changes nothing |
| `Series.Unique` | spacex-dash-app.py:33 | `unique()` has no duplicates and holds exactly the values of the column |
| `Series.UniqueInOrderOfAppearance` | spacex-dash-app.py:33 | `unique()` lists values in order of first appearance |
| `Launches.OutcomesPartition` | spacex-dash-app.py:83-90 | success count plus failure count equals the number of rows |
| `Launches.SiteRecordsEmpty` | spacex-dash-app.py:83 | a site's rows are empty if and only if no row names the site |
| `Scatter.PayloadFilterIsOneMask` | spacex-dash-app.py:112-117 | the range mask followed by the site mask equals one combined condition: mass in `[low, high]`, and the site matches or the selection is `"ALL"` |
| `Scatter.PayloadFilterSound` | spacex-dash-app.py:111-117 | every charted row has `low <= mass <= high`, both ends included, and the selected site unless the selection is `"ALL"` |
| `Scatter.PayloadFilterEmptyRange` | spacex-dash-app.py:111-114 | `low > high` charts no rows |
| `Scatter.PayloadFilterComplete` | spacex-dash-app.py:112-117 | every row meeting both conditions appears exactly as often as in the table, and no other row appears; with `"ALL"` the site plays no part |
| `Scatter.PayloadFilterKeepsOrder` | spacex-dash-app.py:112-117 | the charted rows are the table rows at exactly the qualifying positions, in table order (a subsequence) |
| `Scatter.PayloadFilterIdempotent` | spacex-dash-app.py:112-117 | filtering the result again with the same site and range returns it unchanged |
| `Scatter.MassBounds` | spacex-dash-app.py:11-12 | none for an empty table; otherwise every mass lies between the bounds, and each bound is some row's mass |
| `Scatter.DefaultRangeChartsEverything` | spacex-dash-app.py:11-12 | with the slider at `[min, max]` and `"ALL"` selected, the scatter chart shows the whole table |
| `Pie.PieSlicesSpec` | spacex-dash-app.py:74-79 | the pie has each name of its rows once, in first-appearance order, and no other name; each slice holds the sum of the values under its name |
| `Pie.PieSlicesTotal` | spacex-dash-app.py:74-79 | the slices sum to the sum of all values given |
| `Pie.PieSlicesOfDistinct` | spacex-dash-app.py:92-97 | rows whose names are already distinct are drawn unchanged |
| `Pie.ClassSumCountsSuccesses` | spacex-dash-app.py:72-79 | the sum of a site's 0/1 class values equals its number of class-1 rows |
| `Pie.ClassTotalCountsSuccesses` | spacex-dash-app.py:72-79 | the sum of the whole class column equals the number of successful launches |
| `Pie.AllSitesPieSites` | spacex-dash-app.py:72-79 | the `"ALL"` pie has exactly one slice per distinct site, in first-appearance order; its slice count equals the number of distinct sites |
| `Pie.AllSitesPieValues` | spacex-dash-app.py:72-79 | each `"ALL"` slice equals its site's success count; all slices sum to the table's total successes |
| `Pie.ClassOccurrences` | spacex-dash-app.py:84-89 | in a site's class column, class 1 occurs success-count times and class 0 occurs failure-count times |
| `Pie.OutcomeRowsSpec` | spacex-dash-app.py:84-90 | the relabelled `value_counts()` rows: a `"Success"` row with the number of 1s when there are any, a `"Failed"` row with the number of 0s when there are any, and nothing else |
| `Pie.ValueCountsTotal` | spacex-dash-app.py:84-90 | the relabelled `value_counts()` rows sum to the number of class values counted |
| `Pie.SitePieSpec` | spacex-dash-app.py:83-97 | the one-site pie has at most two slices and no repeated label; `"Success"` holds the site's success count, `"Failed"` its failure count; each appears exactly when its count is positive |
| `Pie.SitePieTotal` | spacex-dash-app.py:83-97 | the one-site slices sum to the number of launches at the site |
| `Pie.SitePieEmpty` | spacex-dash-app.py:83-97 | the one-site pie is empty exactly when no launch has that site |
| `Pie.OutcomePieDistinct` | spacex-dash-app.py:71-98 | for any dropdown value, no two pie slices share a name |
| `TextOrder.SortSpec` | spacex-dash-app.py:33 | `sorted()` returns a permutation of its input, in non-decreasing string order |
| `TextOrder.SortDistinct` | spacex-dash-app.py:33 | sorting strings without duplicates gives strictly increasing order |
| `Dropdown.SortedSites` | spacex-dash-app.py:33 | `sorted(unique())` of the site column is strictly increasing, holds exactly the table's sites, and has one entry per distinct site |
| `Dropdown.SiteOptionsSpec` | spacex-dash-app.py:30-34 | the first option is `"All Sites"`/`"ALL"`; each later option is labelled by its own value; later values strictly increase; they are exactly the table's sites, one per distinct site |
| `Scenario.SampleAllSitesPie` | spacex-dash-app.py:72-79 | for the sample table, `"ALL"` gives A: 1 and B: 1 |
| `Scenario.SampleSitePie` | spacex-dash-app.py:83-97 | for site A of the sample table, the pie has exactly two slices, Success: 1 and Failed: 1, in either order |
| `Scenario.SampleLightPayloads` | spacex-dash-app.py:111-114 | `[0, 1000]` with `"ALL"` keeps only the 500 kg launch |
| `Scenario.SampleSiteB` | spacex-dash-app.py:112-117 | `[0, 3000]` with site B keeps only B's launch |

## Left out

- CSV loading (line 10): the table is a parameter of every query.
- The Dash application, its layout tree, the callback wiring and `app.run()`
  (lines 15-63, 67-70, 103-109, 129-131). These are UI framework and HTTP
  plumbing.
- Figure construction by plotly: titles, colouring by booster category, axes
  and drawing (lines 74-79, 92-97, 119-126). Only the pie chart's summing of
  `values` per distinct `names` is modelled, as `Pie.PieSlices`. The booster
  category is carried in each row but never computed on.
- The order in which plotly draws pie slices. The model keeps first-appearance
  order.
- Slider configuration: `min`, `max`, `step` and `marks` (lines 50-57). The
  slider allows 0 to 10000, so a range outside the table's masses is possible;
  the filter accepts every range.
- Pie.ValueCounts: `value_counts()` orders its rows by frequency. The model
  lists class 1 before class 0. The lemmas about the pie state no slice
  order.
- A cleared dropdown: the site dropdown (lines 27-39) is clearable, so both
  callbacks can receive `None`. The selection is modelled as a string, and
  `None` is not one. `None` is not `"ALL"` and matches no row's site, so it
  behaves like a site absent from the table. `Pie.SitePieEmpty` and
  `Scatter.PayloadFilterComplete` show that both charts are then empty.
- Floating-point payload masses: masses are integers. The code only compares
  masses with the bounds.
- Class values other than 0 and 1: the class is a boolean, as the
  `{1: "Success", 0: "Failed"}` map only covers those two.
- Scatter.MassBounds: the minimum and maximum of an empty column are `NaN` in
  pandas. The model returns `NoPayloads` instead. It does not model `NaN`
  comparisons.
