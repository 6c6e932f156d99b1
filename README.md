# nodedown: the data core of the node-downtime dashboard, in Dafny

nodedown is a small Dash application (`node.py`). It reads two spreadsheets:

- an alarm/event log, with one row per alarm;
- a node-availability report, with availability, latency and packet-loss samples per node.

It cleans both and left-merges them on the IP address. A URL router is meant to serve a home page and one details page per node, and the details page is meant to chart the merged rows of that node. As written, the page code cannot get that far:

- the home layout reads `custom_label_style` (node.py:87) and `min_date` (node.py:90), which the file never defines, so building the home page raises a NameError;
- `update_table` uses `filtered_df` (node.py:248), which is never assigned, because the filter step is only a comment (node.py:246);
- the charts ask for "Packet Loss(%)" and "Latency(msec)" (node.py:267, 270), but the merge brings only "Availability" from the sample table.

The model therefore covers the data pipeline, the router's choice of page and the node selection. `Home` and `Details` name the branch the router takes, not a page that renders.

This project models the parts of that pipeline that hold logic:

- **`Frame`** (`frame.dfy`) models the slice of pandas that the code uses.
  - A table is an ordered sequence of column labels and a sequence of rows. Labels may repeat.
  - Each row keeps its index label.
  - A cell is `Null` (NaN/NaT/None), text, a number or a timestamp.
  - It models `rename`, `drop(columns=..., errors='ignore')`, `dropna(subset=...)`, assigning a coerced column, `drop` of row labels, and `reset_index(drop=True)`, and the errors pandas raises: a KeyError from `dropna(subset=...)` on a missing label, from reading a missing column, and from `drop` of an absent row label; a refusal to assign to a label that names several columns.
  - Several row stages are shown to be one generic selection, `SelectRows`. The order and label lemmas are proved once, about that selection.
- **`Cleaning`** (`cleaning.dfy`) models `data1_clean` and `data2_clean` as methods. Each runs the same stages in the same order as the source.
  - Each method is proved equal to a one-pass reference, `CleanRows`. In that reference, every raw row is renamed, projected and coerced on its own (`CleanCells`). A row stays exactly when none of its required cells is missing (`Kept`).
  - The properties of the cleaned tables are lemmas about that reference.
- **`Reconcile`** (`reconcile.dfy`) models the left merge of `node.py:53`. Each event row becomes a block of merged rows:
  - with one row per sample row that shares its "IP Address", in sample-table order;
  - or with one row whose "Availability" is missing, when no sample row does.
  - Missing keys match each other, as they do in pandas.
  - The column-selection and key errors are modelled, and so is the `_x`/`_y` suffix clash.
  - Only one "IP Address" column is kept. It is the event side's, in place, unless the event table has no rows (for example when data1_clean drops every row). In that case pandas' merge (`_get_merge_keys` in its reshape/merge.py) keeps the sample side's key, which then follows the other event labels.
- **`Routing`** (`routing.dfy`) models the URL router `display_page` and the node selection of `update_graphs`.
  - `str.split('/')` is modelled together with its inverse, `'/'.join`.
  - The alias is the last segment of the path.

**Several matches.** When several sample rows share an IP address, `pd.merge` emits one merged row per matching sample row, where a "first match wins" rule would emit one. The model follows the code (`MergeFanout`). `MergeCount` says when the two give the same number of rows: exactly when no event row has more than one match. `MergeUniqueKeys` covers unique sample keys: merged row i is then event row i followed by the "Availability" of its one match, or by a missing value.

## Model

| member | source | states |
|---|---|---|
| Cleaning.Data1Clean | node.py:12-25 | The cleaner succeeds exactly when, after the rename and the column drop, "Node Alias" is present and "Alarm Time" names exactly one column. A missing required label raises a KeyError that lists the missing labels, and a duplicated "Alarm Time" is refused. On success the table is the reference `CleanRows`, with the renamed and pruned labels. |
| Cleaning.Data2Clean | node.py:27-42 | With fewer than 5 rows, dropping labels 0-4 fails with a KeyError that lists exactly the missing labels (from the row count up to 4). Otherwise it succeeds exactly when the three measure labels each name one column, and otherwise it raises the first coercion's error. On success the rows are the reference clean of rows 5 onward, renumbered from 0. |
| Cleaning.CleanSamples | node.py:30-41 | The stages after the header drop. They succeed exactly when the measure layout is right, raise the first measure's column error otherwise, and yield the reference clean of the given rows. |
| Cleaning.CleanRowsOrigin | node.py:22-41 | For both cleaners (the event stages at node.py:22-24 and the sample stages at node.py:38-41): every cleaned row comes from the raw row with the same label, and it is that row's `CleanCells`. |
| Cleaning.CleanRowsIncreasing | node.py:22-41 | For both cleaners (node.py:22-24 and 38-41): the labels of the cleaned rows strictly increase, so the output is an order-preserving subsequence of the input. |
| Cleaning.CleanRowsKeeps | node.py:22-41 | For both cleaners (node.py:22-24 and 38-41): the raw row labelled base+j is in the output iff it is `Kept`. Both directions are stated, so no valid row is lost. |
| Cleaning.CleanRowsComplete | node.py:22-41 | For both cleaners (node.py:22-24 and 38-41): every cleaned row has the table's width, has no missing required cell, and is `Typed`. |
| Cleaning.KeptIsTyped | node.py:22-41 | A kept event row's "Alarm Time" is a timestamp (node.py:23-24). The three measures of a kept sample row are numbers (node.py:38-41). |
| Cleaning.EventRowsComplete | node.py:22-24 | Every row data1_clean yields has a non-missing "Node Alias" and an "Alarm Time" that is a timestamp. |
| Cleaning.SampleRowsComplete | node.py:38-41 | Every row data2_clean yields carries numbers in "Packet Loss(%)", "Availability" and "Latency(msec)". |
| Cleaning.EventColumns | node.py:14-21 | The event labels after cleaning: the dropped labels and the renamed "Unnamed" labels are gone, and a renamed label appears under its new name unless that name is dropped. Every other label of the sheet is kept, and nothing else appears. |
| Cleaning.SampleColumns | node.py:30-37 | The sample labels after cleaning: the two placeholders and the renamed labels are gone, and each renamed label appears under its new name. Every other label is kept, and nothing else appears. |
| Cleaning.EventCellCarried | node.py:14-24 | A column that the event cleaner neither renames, drops nor coerces, and that no label is renamed into, keeps the raw row's value. |
| Cleaning.SampleCellCarried | node.py:30-41 | A column that the sample cleaner neither renames, drops nor coerces, and that no label is renamed into, keeps the raw row's value. |
| Cleaning.EventStages | node.py:21-24 | The four event row stages (drop columns, dropna on the two required labels, coerce "Alarm Time", dropna on it) compose to the one-pass reference. |
| Cleaning.MetricStages | node.py:30-41 | The sample row stages (drop columns, coerce the three measures, dropna on them) compose to the one-pass reference. |
| Cleaning.CoerceBetweenDropNa | node.py:22-24 | Because the coercion maps missing to missing, "no missing Node Alias or Alarm Time before the coercion, and no missing Alarm Time after it" equals "no missing required cell in the coerced row". |
| Cleaning.AbsentHeaderLabels | node.py:29 | Under the default index, the header labels the frame lacks are exactly those from the row count up to 4. |
| Cleaning.MeasureError | node.py:38-40 | There is no coercion error exactly when each of the three measure labels names one column. |
| Frame.DropNa | node.py:22 | dropna on a subset raises exactly when a subset label is missing. Otherwise it keeps exactly the rows with no missing cell in the subset, and leaves the labels as they are. |
| Frame.DropLabels | node.py:29 | Dropping row labels fails exactly when one is absent, with the error naming the absent labels. Otherwise it keeps exactly the rows with other labels. |
| Frame.KeepUnlabelledPrefix | node.py:29 | On rows labelled base, base+1, ..., dropping the labels 0..n-1 removes exactly the first n-base rows. |
| Frame.ResetIndex | node.py:29 | reset_index(drop=True) keeps the column labels, the row count and every row's cells, and numbers the rows 0, 1, 2, .... |
| Frame.DropColumns | node.py:21 | drop(columns, errors='ignore') keeps exactly the labels outside the given set, and every row with its index label. Under each surviving label, every row keeps its value. |
| Frame.ProjectRowsCells | node.py:21 | Projecting rows onto the kept labels leaves the value under each kept label unchanged, row by row. |
| Frame.Rename | node.py:14-20 | Renaming columns leaves the rows untouched and relabels each column position through the mapping. Unmapped labels stay, and a well-formed table stays well-formed. |
| Frame.ColumnError | node.py:23 | Reading one column succeeds exactly when the label names one column. A missing label is a KeyError naming it, and a repeated label is refused as a duplicate. |
| Frame.SetColumn | node.py:23 | Assigning a coerced column succeeds exactly when the label names one column. It then rewrites only that column's cells and keeps the labels and the row count. |
| Frame.ToDatetime | node.py:23 | to_datetime(errors='coerce') yields a timestamp or missing. Missing stays missing, and a timestamp is unchanged. |
| Frame.ToNumeric | node.py:38 | to_numeric(errors='coerce') yields a number or missing. Missing stays missing, and a number is unchanged. |
| Frame.RenameColumns | node.py:14-20 | Renaming relabels each column position by the mapping and leaves unmapped labels as they are. |
| Frame.KeepCellsCell | node.py:21 | A column that is not dropped keeps its value. |
| Frame.SelectRowsIncreasing | node.py:22 | A row selection of increasingly labelled rows keeps them in order. |
| Frame.SelectRowsKeeps | node.py:22 | A row is selected iff the keep test accepts it. |
| Frame.SelectRowsFuse | node.py:22-24 | Two row selections in a row are one selection with the composed reshaping and test. |
| Reconcile.LeftMerge | node.py:53 | A selection of absent sample labels is a KeyError naming them. A key that is missing or repeated on either side is refused, and so is a suffix clash. Otherwise the merge succeeds, with the labels `MergedColumns` and rows `MergedRows`, numbered from 0. The labels depend on whether the event table has rows, because pandas keeps the sample side's key when it has none. |
| Reconcile.MergeFanout | node.py:53 | An event row with no match yields one merged row: its own cells followed by missing "Availability". One with k matches yields k consecutive rows: its cells followed by each match's "Availability" cells, in sample-table order. |
| Reconcile.MatchedRow | node.py:53 | The j-th merged row of a matched event row carries the j-th match's "Availability" cells. |
| Reconcile.MergeKeepsEventRows | node.py:53 | Every merged row in event row i's block begins with event row i's cells, so no event column is altered. |
| Reconcile.MergeSlots | node.py:53 | The blocks are non-empty and lie end to end in event-row order, covering the whole merged table, so every event row is kept in order. |
| Reconcile.MergeCount | node.py:53 | The merge never has fewer rows than the event table. It has the same number exactly when no event row matches more than one sample row. |
| Reconcile.MergeUniqueKeys | node.py:53 | With unique sample keys, each event row has at most one match and the merge has one row per event row. Merged row i is event row i's cells followed by the "Availability" cells of its match, or by missing values when it has none. |
| Reconcile.UniqueKeyRow | node.py:53 | When no event row has two matches, merged row i is event row i extended by its one match's "Availability" cells, or by missing values. |
| Reconcile.MergeColumns | node.py:53 | When the event table has rows, the merged labels are the event labels, with "Availability" renamed to "Availability_x" when both sides have it, followed by one label per sample "Availability" column ("Availability" or "Availability_y"). When it has none, the single "IP Address" leaves its place: the other event labels (suffixed the same way) come first, then "IP Address", then the "Availability" labels. Nothing else appears. |
| Reconcile.MergeColumnsNoRows | node.py:53 | With no event rows, the merged labels are the event labels without the key and with the "_x" suffix, then "IP Address", then one "Availability" label per sample "Availability" column. |
| Frame.KeepAllBut | node.py:53 | Dropping a label that occurs once removes exactly its position and keeps the rest in order. |
| Reconcile.Matching | node.py:53 | The matches of an event row are exactly the sample rows with an equal key, in increasing order. |
| Reconcile.OffsetCount | node.py:53 | The fan-outs add up to at least the event-row count, with equality exactly when each fan-out is 1. |
| Routing.DisplayPage | node.py:228-235 | "/" is Home. Any other path starting with "/details/" is Details of a '/'-free suffix that is preceded by a '/'. Everything else is NotFound. All three directions are stated as iff. |
| Routing.Split | node.py:232 | `str.split('/')` never yields an empty list. Its partners are `JoinSplit` and `SplitJoin`, which show that `'/'.join` inverts it. |
| Routing.LastSegment | node.py:262 | `split('/')[-1]` is a '/'-free suffix of the path that is either the whole path or comes right after a '/'. |
| Routing.LastSegmentSuffix | node.py:232 | `split('/')[-1]` is the '/'-free suffix of the path that is either the whole path or preceded by a '/'. |
| Routing.LastSegmentOf | node.py:232 | The last segment of a prefix ending in '/' followed by a '/'-free alias is that alias. |
| Routing.JoinSplit | node.py:232 | Joining the pieces of `split('/')` with '/' gives the string back. |
| Routing.SplitJoin | node.py:232 | Splitting the join of '/'-free pieces gives the pieces back. |
| Routing.SplitPieces | node.py:232 | No piece of a split holds a '/'. |
| Routing.DetailsLink | node.py:231-233 | A path "/details/<alias>" routes to the details page of that alias when the alias has no '/'. This is the form of the link that node.py:249 would build; URL encoding is not modelled. |
| Routing.DetailsLinkSlash | node.py:231-233 | An alias that contains '/' does not survive the round trip: "/details/R1/2" routes to node "2". |
| Routing.SelectNode | node.py:262-264 | The selection fails exactly when "Node Alias" is not a single column. Otherwise it keeps exactly the merged rows whose alias is the path's last segment, with the labels unchanged, and it is empty exactly when no row has that alias. |
| Routing.SelectNodeLabels | node.py:262-264 | On the merged table, the selection keeps row order, and it keeps row j iff that row's alias matches. |
| Routing.SelectNodeDetails | node.py:262-264 | On the details page of an alias (the router's branch at node.py:231-232), the selection holds exactly that alias's merged rows. |

## Left out

- `pd.read_excel` and `skiprows=5` (node.py:13, 28) are file I/O. Each cleaner takes the sheet as already read: its labels and its rows, with the default index 0, 1, 2, ....
- The parsing inside `pd.to_datetime` and `pd.to_numeric` is out of scope. Each is a parameter that maps one cell to a value or to a failure (`Parsers`). Column-wide format inference and the text forms that pandas accepts are not modelled.
- Floating point: numbers are Dafny `real`s, and timestamps are integers.
- The layouts (node.py:66-221) are not modelled. `Home` and `Details` stand for the branch `display_page` takes; the home layout itself raises a NameError (node.py:87, 90).
- The date-range and downtime filters are not implemented in the source: node.py:246 is only a comment. `update_table` (node.py:245-251) then raises a NameError on `filtered_df`, so it is not modelled. The "/details/<alias>" link of node.py:249 appears only as the input of `DetailsLink`.
- The charts (node.py:266-276) are not modelled. Two of them name "Packet Loss(%)" and "Latency(msec)", which the merged table does not have.
- DetailsLink: the browser may percent-encode a link's path before the router sees it, and URL encoding and decoding are not modelled. The round trip is stated only for aliases that the browser leaves unchanged (no spaces, '%', '?', '#' or non-ASCII characters).
- The module-level globals (file paths, `df1_cleaned`, `df2_cleaned`, `merged_df`, the Dash app) are not modelled. The lemmas take the tables as parameters.
- `pathname` is `None` before the first URL event in Dash. The model takes a string, so the AttributeError that `None.startswith` would raise is not modelled.
- LeftMerge: the dtype checks of `pd.merge` on the key columns (for example, object against float64) are not modelled, because a cell's type here does not fix a column dtype. Keys compare by value.
- SelectNode: a "Node Alias" label that names several columns is refused with an error. pandas would instead compare a whole sub-frame and index by the resulting boolean frame, which masks cells rather than selecting rows.
