# PortPulse fuel analytics, modelled in Dafny

PortPulse is a dashboard for cruise-ship fuel analytics. A script generates a
synthetic table of port calls for the three NCLH subsidiaries. It adds three
derived columns to each call:

- a warm-up status, Optimal at 15 minutes or less;
- the extra fuel a longer warm-up wastes;
- what that fuel costs.

The sidebar filters the table by subsidiary or by ship. The dashboard then
computes:

- the total extra fuel and the total financial loss;
- a per-group table of warm-up percentages for a stacked bar chart;
- a per-(group, status) table of fuel sums and row counts.

This project models that data pipeline and proves what each step promises.

- `catalogue.dfy` (`Catalogue`): the fixed lists the generator draws from.
  - Subsidiaries and their fleets, countries and their ports.
  - The fuel prices, the warm-up times, the fuel range and the optimal warm-up of 15 minutes.
- `generator.dfy` (`Generator`): the record generator, as a method with a loop.
  - The seeded random source is replaced by a sequence of draws. Each draw holds the values one row consumes, each from its allowed set.
  - The delay coin is present exactly when the port is Busy, because the source draws it only then.
  - The loop is proved to return one well-formed row per requested entry.
- `derivation.dfy` (`Derivation`): the three derived columns.
  - Fuel is an integer count of tenths of a metric ton, matching the one-decimal rounding of the generated value.
  - Extra fuel and loss are exact reals.
- `filters.dfy` (`Filters`): the ship options and the filter precedence.
  - A non-empty ship selection replaces the subsidiary selection.
- `sequences.dfy` (`Sequences`): order-preserving helpers.
  - Boolean-mask selection (`Filter`) and `unique()` (`Unique`).
- `aggregation.dfy` (`Aggregation`): the totals, the group-by over (group, status), the unstack to a count table with missing counts filled with 0, the percentage division and the melt into chart rows.
  - Every table is built by one fold over the rows.
  - Each is proved equal to a direct count or sum over the rows.
  - The group-by operations take the grouping column as a function from a row to its value. `KeyValue(k, ·)` gives the three columns the dashboard offers: ship name, subsidiary and port country.

A request for zero or fewer records is not rejected: `range(num_entries)` is
then empty, so the generator returns an empty table. `GenerateNclhData`
returns `max(0, num_entries)` rows and reports no error.

## Model

| member | source | states |
|---|---|---|
| Generator.GenerateNclhData | main.py:23-45 | Returns exactly max(0, num_entries) rows. Row i is the row built from draw i. Every row is well formed: its ship is in its subsidiary's fleet, its port is its country's port, a delay only at a Busy port, fuel in [5.0, 20.0] t, price and warm-up from their lists, optimal warm-up 15. |
| Generator.MakeRecord | main.py:24-38 | One admissible draw gives a well-formed row that keeps the drawn subsidiary, country and port status. At a Busy port there is a delay exactly when the coin exceeds 0.3. |
| Generator.PortIsFunctionOfCountry | main.py:27-28 | In a generated table two rows have the same country exactly when they have the same port. |
| Generator.ShipDeterminesSubsidiary | main.py:10-14 | In a generated table two rows with the same ship have the same subsidiary. |
| Catalogue.FleetsDisjoint | main.py:10-14 | No ship belongs to two subsidiaries' fleets. |
| Catalogue.PortInjective | main.py:16-21 | Different countries have different ports. |
| Catalogue.SubsidiaryNameInjective | main.py:9 | Different subsidiaries have different names. |
| Catalogue.CountryNameInjective | main.py:15 | Different countries have different names. |
| Derivation.Derive | main.py:59-67 | The status is Optimal iff warm-up ≤ 15. Extra fuel is 0 for Optimal rows and (w − 15) · fuel / 100 otherwise, so it is ≥ 0 for non-negative fuel and > 0 for a Non-Optimal row with fuel. The loss is extra fuel × price, so it is ≥ 0, and it is 0 iff the extra fuel is 0 when the price is positive. |
| Derivation.DeriveTable | main.py:59-67 | Adding the columns keeps every row and its order and derives each row's columns from that row alone. |
| Derivation.GeneratedRowLossIffNonOptimal | main.py:59-67 | For a generated row: Non-Optimal iff it wastes fuel, iff it loses money. |
| Derivation.DeriveExample | main.py:62-67 | 20 minutes on 12.3 t at $700/t is Non-Optimal, wastes 0.615 t and loses $430.50. |
| Filters.ApplyFilters | main.py:86-91 | The result is a subsequence of the table in its original order. A non-empty ship selection keeps exactly the rows of the selected ships, each as often as it occurs. Otherwise a non-empty subsidiary selection keeps exactly the rows of those subsidiaries. Otherwise it is the whole table. |
| Filters.ShipSelectionOverridesSubsidiaries | main.py:86-89 | Once a ship is selected, the subsidiary selection has no effect on the result. |
| Filters.AvailableShips | main.py:78 | The options have no repetitions. A ship is offered iff some row of a selected subsidiary sails it, or any row when no subsidiary is selected. |
| Filters.OfferedShipsBelongToSelection | main.py:78 | In a generated table every offered ship belongs to the fleet of a selected subsidiary. |
| Filters.ShipFilterStaysWithinSubsidiaries | main.py:78-89 | When the selected ships are among those offered, every row the ship filter keeps belongs to a selected subsidiary. |
| Sequences.Filter | main.py:87-89 | Boolean-mask selection keeps exactly the accepted values, each as often as it occurs, in their original order. |
| Sequences.Unique | main.py:78 | `unique()` has no repetitions and holds exactly the values of its input, in order of first occurrence: each value stands before any value whose first occurrence comes later. |
| Aggregation.TotalExtraFuel | main.py:96 | The sum of the extra-fuel column is 0 for an empty selection and ≥ 0 when no row is negative. |
| Aggregation.TotalLoss | main.py:97 | The sum of the loss column is 0 for an empty selection and ≥ 0 when no row is negative. |
| Aggregation.TotalsAppend | main.py:96-97 | The totals of a table split in two are the sums of the totals of the parts. |
| Aggregation.TotalsComeFromNonOptimalRows | main.py:96-97 | Both totals equal the totals of the Non-Optimal rows alone. |
| Aggregation.LossWithinPriceRange | main.py:96-97 | For generated rows: 640 × total extra fuel ≤ total loss ≤ 720 × total extra fuel. |
| Aggregation.RowLossWithinPriceRange | main.py:67 | The same bound for one row priced from the price list. |
| Aggregation.GroupByStatus | main.py:144-147 | The fuel table has no two cells for one (group, status) pair. Every cell counts at least one row, and an empty selection gives an empty table. |
| Aggregation.GroupByLookup | main.py:144-147 | The cell of a pair holds the number of rows of that pair and the sum of their fuel. A pair has a cell iff it has a row. |
| Aggregation.GroupByTotals | main.py:144-147 | The counts of all cells add up to the number of filtered rows. Their fuel sums add up to the total fuel of the filtered rows. |
| Aggregation.CellsMatchRows | main.py:144-147 | Every cell holds the row count and fuel sum of exactly the rows of its pair. |
| Aggregation.CountRowsPositive | main.py:111 | A pair counts a row iff some row is in that group with that status. |
| Aggregation.GroupsOfGroupBy | main.py:111 | The count table has a cell for a group iff some filtered row is in that group. |
| Aggregation.Unstack | main.py:111 | One entry per group in order of first appearance. Each holds that group's Optimal and Non-Optimal counts, 0 for a status without rows. Every group counts at least one row. |
| Aggregation.Shares | main.py:112 | Each group's count divided by its row total, times 100, is 100 · count / total. |
| Aggregation.WarmUpPercentages | main.py:111-112 | Each group appears at most once. An empty selection gives an empty table, with no division by zero. |
| Aggregation.PercentageGroups | main.py:111-112 | A group has a percentage entry iff some filtered row is in that group. |
| Aggregation.PercentageOfGroup | main.py:111-112 | Each entry's percentages are 100 · count / (Optimal + Non-Optimal rows of its group), counted over the filtered rows. The divisor is at least 1. |
| Aggregation.PercentagesSumTo100 | main.py:111-112 | Each group's two percentages lie in [0, 100] and sum to exactly 100. |
| Aggregation.SplitSumsTo100 | main.py:112 | Two percentages of one positive total sum to 100 and each lies in [0, 100]. |
| Aggregation.Melt | main.py:113-118 | The long table has two rows per group: first every group's Optimal share, then every group's Non-Optimal share, in value_vars order. |
| Aggregation.PlotBarsStackTo100 | main.py:111-118 | In the chart rows each group's two segments have its group and the two statuses, and stack to exactly 100. |
| Aggregation.SingleGroup | main.py:111-112 | A non-empty selection in one group gives exactly one percentage entry, for that group. |
| Aggregation.KeyValueSeparatesGroups | main.py:105-111 | Grouping by ship name, subsidiary or port country puts two rows in the same group exactly when they have the same ship, subsidiary or country. |
| Aggregation.PercentageCountBound | main.py:111-112 | The percentage table has no more entries than the grouping column has possible values. |
| Aggregation.OneBarPerSubsidiary | main.py:111-112 | Grouped by subsidiary, the chart has at most three bars, one per subsidiary. |
| Aggregation.OneBarPerCountry | main.py:111-112 | Grouped by port country, the chart has at most one bar per country. |
| Aggregation.HalfAndHalf | main.py:111-112 | Two Optimal and two Non-Optimal rows of one group give exactly 50 / 50. |

## Left out

- The seeded random source (`np.random.seed(42)` and the draws): the draws are a parameter, constrained only to the values each draw can take. The probability weights are not modelled.
- Floating point: `round(fuel_used, 1)` is taken as already applied to the draw, which holds tenths of a ton in [50, 200]. Sums, products and divisions are exact reals rather than IEEE doubles.
- Streamlit widgets, page layout and session state, including how the subsidiary multiselect is filled: the selections are parameters.
- Plotly chart construction and layout.
- The display formatting of the two metrics and the display-only sort of the detailed table.
- Aggregation.GroupByStatus: pandas' groupby sorts the group keys. The model keeps groups in order of first appearance. Which groups appear and what they hold are proved, but not their sorted order.
- Aggregation.Unstack: `unstack()` yields its rows in pandas' sorted index order and its status columns in sorted order. The model keeps the groups in order of first appearance and names the two statuses as fields, so neither order is stated.
- Aggregation.WarmUpPercentages: the percentage table inherits the sorted row order of the unstacked table in pandas. The model's entries are in order of first appearance; their groups and values are proved, their order is not.
- Aggregation.Melt: pandas' `melt` fails when a status has no row in the whole selection, because that column is then missing after `unstack`. The model always has both columns, filled with 0, and does not model the failure.
- The choice of grouping column (`st.selectbox`): it is a parameter. The group-by and percentage operations are proved for every function from a row to a string. `Column(k)`, built on `KeyValue`, gives the three columns the dashboard offers as instances of that function, and `KeyValueSeparatesGroups` ties each to its raw column.
