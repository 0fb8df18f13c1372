# Pitcher K edge dashboard: ranking and partition rule

A Dafny model of the data rule behind the daily pitcher strikeout prop
dashboard. Each row is one (pitcher, bookmaker, line) prop with an over edge
and an under edge. Either edge may be missing (NaN after numeric coercion).
The dashboard does four things:

- it gives each row a ranking key `max_edge`, the larger of its two edges;
- it sorts the table descending by that key, rows without a key last;
- it splits the sorted table with a boolean mask into "Today's Plays" (some
  edge above zero) and "Leans Against" (every other row);
- it colours each edge cell green (above zero) or red (anything else).

Edges are `Option<int>`: hundredths of a percent, after the ×100 scaling and
rounding. Every other column is carried in `Info` and never inspected.

Pandas' default sort is not stable, so the model does not fix an order among
ties. `IsSortedTable(rows, t)` says that `t` is the rows permuted and ranked.
The main theorems (`SortedTableReport`, `BothMissingAtEnd`,
`PartitionsIgnoreTieOrder`) hold for every such `t`. `SortByMaxEdge` is an
insertion sort proved to produce one such `t`; `BuildReport` uses it.

The code sorts the whole table first and then applies the mask. Masking first
and sorting each part would give the same tables, because the positive rows
form a prefix of the sorted table (`PositivesArePrefix`).

Files: `wrappers.dfy` (the `Option` type), `pitcher_dashboard.dfy` (module
`PitcherDashboard`).

## Model

| member | source | states |
|---|---|---|
| `PitcherDashboard.MaxEdge` | pitcher_dashboard.py:30 | the key is an upper bound of each present edge and equals one of them; it is missing exactly when both edges are missing (NaN skipped) |
| `PitcherDashboard.RankedMeansDescendingMissingLast` | pitcher_dashboard.py:31 | a ranked table is exactly one whose present keys never increase and in which no present key follows a missing one |
| `PitcherDashboard.Insert` | pitcher_dashboard.py:31 | inserting a row into a ranked table keeps it ranked and adds exactly that row |
| `PitcherDashboard.SortByMaxEdge` | pitcher_dashboard.py:31 | the result is a permutation of the input rows (same rows, same field values) ranked descending by key, missing keys last |
| `PitcherDashboard.Select` | pitcher_dashboard.py:34-36 | a row is in the selection iff it is in the table and its positive-mask value matches the one asked for |
| `PitcherDashboard.SelectCount` | pitcher_dashboard.py:35-36 | the selection keeps every copy of each row whose mask matches and no copy of any other row |
| `PitcherDashboard.Split` | pitcher_dashboard.py:34-36 | a row is in the positive table iff it is in the input and `edge_over > 0 or edge_under > 0`; it is in the negative table iff it is in the input and neither holds |
| `PitcherDashboard.SplitIsExact` | pitcher_dashboard.py:34-36 | the two tables are disjoint and together hold every row of the table exactly as often as it does |
| `PitcherDashboard.BuildReport` | pitcher_dashboard.py:29-36 | the positive table followed by the negative one is a ranked permutation of the input; membership follows the mask; each table is ranked; empty input gives two empty tables |
| `PitcherDashboard.IsPositive` | pitcher_dashboard.py:30-34 | the positive mask (`edge_over > 0 or edge_under > 0`, a missing edge never above zero) holds iff the row's key is present and above zero |
| `PitcherDashboard.PositivesArePrefix` | pitcher_dashboard.py:30-36 | in a ranked table the positive rows are exactly a prefix, and the negative rows are the remaining suffix |
| `PitcherDashboard.SortedTableReport` | pitcher_dashboard.py:31-36 | for any admissible sort of the rows (any tie order), the positive table followed by the negative one is that sorted table, membership follows the mask, and each table is ranked |
| `PitcherDashboard.BothMissingAtEnd` | pitcher_dashboard.py:30-36 | a row with both edges missing is in the negative table, and such rows form that table's tail |
| `PitcherDashboard.PartitionsIgnoreTieOrder` | pitcher_dashboard.py:31-36 | two sorts that differ only in tie order give the same positive and negative rows, counted with repetition |
| `PitcherDashboard.MissingOverRankedByUnder` | pitcher_dashboard.py:30-35 | a row with a missing over edge and a positive under edge is positive and is ranked by its under edge |
| `PitcherDashboard.HighlightEdges` | pitcher_dashboard.py:39-45 | green iff the value is a number above zero; red iff it is NaN or a number at most zero; empty iff `float()` cannot convert it |
| `PitcherDashboard.EdgeCell` | pitcher_dashboard.py:19-20 | an edge cell after coercion is always a number or NaN, never an unconvertible value |
| `PitcherDashboard.HighlightMatchesPartition` | pitcher_dashboard.py:34-45 | a row is positive iff at least one of its edge cells is green; no edge cell is ever uncoloured |
| `PitcherDashboard.NegativeRowsShowRed` | pitcher_dashboard.py:36-45 | every row of the negative table shows both edge cells in red |

## Left out

- Page setup, titles, subheaders, the empty-table notices and the table widgets (pitcher_dashboard.py:6, 48-104): UI rendering.
- Building the file name from today's date and reading the CSV, with the "file not found" stop (pitcher_dashboard.py:9-16): a clock read and file I/O.
- Parsing edge text into numbers with `errors="coerce"` (pitcher_dashboard.py:19-20): library string parsing. Rows arrive with each edge already a number or `None`.
- The ×100 scaling and the `round(1)`/`round(2)` calls (pitcher_dashboard.py:19-27): binary floating point with half-to-even rounding. Edges, `line`, `expected_innings` and `projected_ks` are integers in their rounded units; the odds are carried as opaque integers, never rounded or inspected.
- The display formats `{:.2f}%`, `{:.2f}`, `{:.1f}` and the Styler plumbing (pitcher_dashboard.py:68-75, 96-103): float formatting in a presentation library.
- Dropping the helper `max_edge` column (pitcher_dashboard.py:31): the model never adds it to a row, so rows keep exactly their input fields.
- Infinite edge values: edges are finite integers here.
- `SortByMaxEdge`: fixes one order among ties (insertion order of the insertion sort). Pandas' unstable sort may choose another, so every property of the dashboard is stated for any admissible sort through `IsSortedTable`.
