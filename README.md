# Portfolio dashboard: selection and filtering logic

`portfolio.py` is a single-page Streamlit dashboard. It reads the connection string and
fetches three tables: `Equity`, `Metrics` and `Trades_Metrics`. It lists the distinct
portfolio ids of the equity table and groups them by the text before their first hyphen. The
sidebar then offers a group and one of that group's ids. For the chosen portfolio the page
shows an equity chart, a metrics table, and the trades that started in the last 30 days.
Each step can end the pass early with an error or a warning.

This project models one top-to-bottom pass of that script in Dafny:

- `results.dfy` (`Results`): `Option` and `Result`.
- `sequences.dfy` (`Sequences`) holds the two dataframe idioms the script relies on:
  - `Where`, the boolean-mask filter `df[mask]`;
  - `Unique`, the first-seen de-duplication of `Series.unique()`;
  - their order and multiplicity lemmas.
- `grouping.dfy` (`Grouping`) holds the prefix grouping:
  - the group key `split('-')[0]`;
  - a reference definition `Grouped` of the dictionary the loop builds;
  - the imperative loop `GroupByPrefix`, proved to build exactly `Grouped`;
  - lemmas on the dictionary's shape, its order, and the fact that its lists are a
    rearrangement of the input ids.
- `frames.dfy` (`Frames`) holds:
  - the rows of the three tables;
  - the per-portfolio equality filters;
  - the inclusive trailing 30-day window on `Fecha_inicio`;
  - the nine-column projection of the trades table.
- `dashboard.dfy` (`Dashboard`) holds:
  - the halts (missing connection string, failed fetch, no portfolios, no data for the
    selected portfolio);
  - which sections the page shows and what they hold;
  - the lemma that the selected id always comes from the equity table. As a consequence,
    the "no data" halt is never reached and the equity section is always shown.

The configuration value, the result of the three reads, the two sidebar choices and the
current time are inputs of the model. Timestamps are whole seconds. Thirty days are
`30 * 86400` seconds.

Two consequences of the code as written:

- An empty equity section shows nothing (`portfolio.py:62-75`), while an empty trades
  window shows a warning (`portfolio.py:91-99`). `Dashboard.Section` returns `None` for an
  empty equity section, exactly as it does for metrics.
- The "no data" halt of `portfolio.py:58-60` cannot be reached, because the offered ids are
  taken from the equity table itself. `Dashboard.EquityAlwaysShown` proves this.

## Model

| member | source | states |
|---|---|---|
| Sequences.Where | portfolio.py:54-56 | the boolean-mask filter keeps only elements passing the mask, each exactly as often as in the input, and is empty iff no element passes |
| Sequences.WhereIsSubsequence | portfolio.py:54-56 | the mask filter keeps the input's order (its result is a subsequence of the input) |
| Sequences.WhereIdempotent | portfolio.py:54-56 | applying the same mask twice equals applying it once |
| Sequences.Unique | portfolio.py:35 | `unique()` yields each value of the column once and no other value |
| Sequences.UniqueFirstSeenOrder | portfolio.py:35 | `unique()` lists values in the order of their first occurrence in the column |
| Grouping.Prefix | portfolio.py:42 | the group key is a hyphen-free prefix of the id, followed by a hyphen when shorter than the id, and the whole id when it has no hyphen |
| Grouping.PrefixOfJoined | portfolio.py:42 | `split('-')[0]` of a hyphen-free part, a hyphen and any tail is that part |
| Grouping.PrefixExamples | portfolio.py:42 | "ACME-01" has key "ACME"; an id starting with a hyphen has the empty key |
| Grouping.GroupByPrefix | portfolio.py:40-45 | the loop builds exactly the reference grouping: keys are the prefixes in first-seen order, each key maps to the ids carrying it in input order |
| Grouping.KeysSnoc | portfolio.py:43-44 | one more id adds its key to the key order only on first sight |
| Grouping.WithPrefixSnoc | portfolio.py:45 | one more id is appended to its own key's list and to no other |
| Grouping.Step | portfolio.py:43-45 | opening the key with an empty list when new, then appending the id, gives the dictionary of one more id |
| Grouping.LoopStep | portfolio.py:41-45 | one loop turn carries the invariant (key order and key-by-key contents) from `i` ids to `i + 1` |
| Grouping.LoopDone | portfolio.py:40-45 | the loop's final state is the reference grouping |
| Grouping.GroupedWellFormed | portfolio.py:40-45 | keys are distinct and are exactly the dictionary's keys; no list is empty; every listed id carries its list's key, which is hyphen-free and a prefix of the id |
| Grouping.EachIdInItsOwnGroup | portfolio.py:41-45 | an id is listed in its own key's group iff it is an input id, and is listed under no other key |
| Grouping.GroupOrder | portfolio.py:40-48 | the group options follow the first appearance of their keys, and each group lists its ids in input order |
| Grouping.FlattenCounts | portfolio.py:40-45 | concatenating the lists of distinct keys counts each id as often as in the input when its key is among them, otherwise zero times |
| Grouping.GroupsArePermutation | portfolio.py:40-45 | the groups, concatenated in key order, are a rearrangement of the input ids |
| Grouping.OneId | portfolio.py:40-45 | a single id forms one group keyed by its prefix and holding only that id |
| Frames.OfPortfolio | portfolio.py:54-56 | the filtered table keeps only rows of the selected id, each as often as in the table, and is empty iff the table has no row of that id |
| Frames.OfPortfolioMembers | portfolio.py:54-56 | a row is in the filtered table iff it is in the table and carries the selected id |
| Frames.OfPortfolioKeepsOrder | portfolio.py:54-56 | filtering keeps the table's row order |
| Frames.OfPortfolioIdempotent | portfolio.py:54-56 | filtering the filtered table by the same id changes nothing |
| Frames.LastMonth | portfolio.py:84-89 | the window keeps exactly the trades with `now - 30 days <= Fecha_inicio <= now`, with their multiplicities, and is empty iff none qualifies |
| Frames.LastMonthKeepsOrder | portfolio.py:87-89 | the window keeps the trades' order |
| Frames.WindowEnds | portfolio.py:84-89 | both ends are inclusive: a start exactly 30 days ago or exactly now is kept; one second outside either end is dropped |
| Frames.TradeLine | portfolio.py:95 | a shown line has nine cells, cell `j` being the trade's column named `TRADE_COLUMNS[j]` |
| Frames.TradeTableCells | portfolio.py:93-96 | the shown table has one line per trade, each line the projection of that trade onto the nine columns |
| Dashboard.PortfolioIds | portfolio.py:35 | the offered ids are distinct, are exactly the ids of the equity rows, and are empty iff the equity table is empty |
| Dashboard.PortfolioIdsFirstSeen | portfolio.py:35 | `unique()` lists the ids in the order of their first equity rows: for `i < j`, the first row carrying id `i` comes before the first row carrying id `j` |
| Dashboard.Section | portfolio.py:62-82 | a section is rendered iff the table has a row of the selected id, and then it holds that id's filtered rows |
| Dashboard.TradesPart | portfolio.py:84-99 | the "no trades last month" warning appears iff no trade of the id started in the window; otherwise the table shows the nine columns of the id's trades in the window |
| Dashboard.ShownTradesAreRecent | portfolio.py:87-96 | every shown trade line is the projection of a trade of the selected portfolio that started in the window |
| Dashboard.Render | portfolio.py:54-99 | the pass halts with "no data" iff none of the three tables has a row of the id; otherwise the page is the three sections for that id |
| Dashboard.Pass | portfolio.py:11-99 | a missing or empty connection string halts first; a failed fetch halts with its message; "no portfolios" halts iff the equity table is empty; otherwise the page of the picked id is rendered |
| Dashboard.SelectedIsListed | portfolio.py:47-52 | the picked id is an equity id and belongs to the picked group's key |
| Dashboard.FirstIdOfEachGroupIsOffered | portfolio.py:48-52 | every offered group has a first id to pick, so the radio list is never empty |
| Dashboard.EquityAlwaysShown | portfolio.py:35-65 | a pass never ends with the "no data" halt, and the page it shows always has the equity section |

## Left out

- Loading `.env` (`load_dotenv`, `os.getenv`): the connection string is an `Option<string>` input.
- The three `pd.read_sql` calls: their outcome is a `Result` input, and a failure of any of
  them is one `FetchFailed(message)`.
- `create_engine` (`portfolio.py:18`) runs outside the `try` of lines 26-33. An exception it
  raises (a malformed URL, an unknown dialect, a missing driver) ends the pass uncaught,
  without the "error occurred while fetching data" message. This is not modelled: the
  `Result` input covers only the three reads.
- Streamlit output (title, success message, subheaders, chart and table rendering): the
  model records which sections are shown and their rows, not how they are drawn.
- The Plotly line chart: the equity section holds the filtered rows it would plot.
- `pd.to_datetime` on `Date` and `Fecha_inicio`: timestamps are already whole seconds.
  Sub-second precision and time zones are not modelled.
- `datetime.now()`: the current time is the `now` input.
- The metrics transpose (`set_index('portfolio_id').transpose()`): the metrics section holds
  the filtered rows untransposed.
- The two sidebar widgets are positions in the offered options (`Pick`), with a
  precondition that they are offered. This is the only input the widgets can return.
  Their default choice and their caching across re-runs are not modelled.
- Non-string or missing (`NaN`) portfolio ids, on which `split` would raise: ids are strings.
- Dataframe columns other than the named ones: `MetricsRow.columns` and `TradeRow.others`
  carry them as opaque cells.
