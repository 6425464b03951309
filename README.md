# auditd agent reconciliation, modelled in Dafny

`auditd.py` compares an auditd log export with an InsightIDR agent inventory. It reads both CSV
files and strips the whitespace around every column name. It then checks that both tables have an
`Agent ID` column and inner-joins them on that column. From the joined frame it keeps the five
report columns (`Hostname`, `IP Adress`, `Operating System`, `Last Seen`, `Log`) and writes them to
`resultado.csv`. Audit rows whose `Agent ID` does not occur in the inventory go to
`sin_coincidencia.csv`, but only when there is at least one such row.

The model works on parsed tables. A table is a header (a sequence of column names) and rows (a
sequence of cells, one per column, every cell a string). The model is split into four modules:

- `Tables` (`tables.dfy`): tables, column counting and column selection `df[cols]`.
- `Headers` (`headers.dfy`): Python's `str.strip()`, header trimming and `leer_csv_limpio`.
- `Join` (`join.dfy`):
  - `pd.merge(..., on='Agent ID')`, with its column layout and its `_x`/`_y` suffixes;
  - the row pairs it emits and the order it emits them in;
  - the `isin` anti-join.
- `Reconciler` (`reconciler.dfy`): `procesar_datos` as one function from the two read results to an
  `Outcome`. The outcome is either `Written(Report(matched, unmatched))` or `Stopped(failure)`.
  `unmatched` is `None` exactly when `sin_coincidencia.csv` is not written.

The failures, in the order the source checks for them:

- `LoadFailed`: either file could not be read.
- `MissingKey`: a trimmed header lacks `Agent ID`. It carries both column lists, as the source prints
  them.
- `ProcessingError`: an exception raised inside the final `try` block:
  - `KeyNotUnique`: the merge rejects a key label that names two columns of one table.
  - `ColumnNotFound`: the projection asks for a column the merged frame lacks. This happens, for
    example, when both tables share a report column, so that the merge renames it `_x`/`_y`.

Two points of the code's error handling shape the model:

- Load errors: `leer_csv_limpio` tells the three kinds of load error apart only in the message it
  prints, and every kind makes it return `None`. So `Load` accepts a `LoadError` of any kind but
  returns `None` for all of them, and `Reconcile` reports them all as one `LoadFailed`.
- Exceptions in the `try` block: the code catches every exception there, not only I/O errors. This
  includes pandas' merge error and its `KeyError`, which the model returns as `ProcessingError`.

Every operation is a function, so two runs on the same inputs give the same outcome.

## Model

| member | source | states |
|---|---|---|
| Headers.Strip | auditd.py:22 | The result is the input with a whitespace-only prefix and suffix removed, and no whitespace is left at either end. Whitespace is the set Python's `str.isspace` accepts. |
| Headers.StripUnique | auditd.py:22 | Any string that is the input with a whitespace prefix and suffix removed and no whitespace at its ends equals `Strip`. Stripping is fully determined. |
| Headers.StripIdempotent | auditd.py:22 | Stripping a stripped name changes nothing. |
| Headers.StripPadding | auditd.py:22 | A clean name padded with whitespace on either side strips back to the bare name. |
| Headers.TrimHeaders | auditd.py:22 | The column count is unchanged and each new name is the stripped old name. No name keeps surrounding whitespace, every cell is unchanged, and a well-formed table stays well-formed. |
| Headers.TrimHeadersIdempotent | auditd.py:22 | Trimming a trimmed table changes nothing. |
| Headers.Load | auditd.py:19-32 | No table exactly when the read failed, whatever the error kind. Otherwise it returns the same rows and column count, with every name stripped. |
| Tables.Project | auditd.py:52 | `df[cols]` fails exactly when some requested name is missing. Otherwise it keeps the row count and well-formedness, and `SelectsColumns` holds. Output column m is, whole and cell for cell, the input column at the m-th position of `Positions`: for each requested name in turn, that name's columns left to right. There is one output column per selected position. Every output column carries a requested name. Every input column carrying a requested name is copied, so two same-named columns both appear. Each name labels as many output columns as it labels input columns, times the number of times it is requested. |
| Tables.SelectionColumns | auditd.py:52 | The columns at the selected positions meet `SelectsColumns`: each copied whole from its position, every same-named input column included, and counted as above. |
| Tables.PositionsCover | auditd.py:52 | Every input column carrying a requested name is among the selected positions. |
| Tables.PositionsCount | auditd.py:52 | The selected positions label a name once per input column of that name, for each time the name is requested. |
| Tables.ProjectExact | auditd.py:52 | When every requested name labels exactly one column, the projection has exactly the requested names in the requested order. Each cell is the cell of the same row under that name. |
| Tables.PositionsUnique | auditd.py:52 | Under the same condition, the selected column for each requested name is the unique column of that name. |
| Tables.OccurrencesComplete | auditd.py:52 | Selecting a name takes every column carrying that name. |
| Tables.OccurrencesAscending | auditd.py:52 | A duplicated name's columns are taken left to right. |
| Tables.OccurrencesCount | auditd.py:52 | A name is selected once per column that carries it. |
| Join.MergedHeader | auditd.py:51 | The merged frame has one column fewer than the two tables together: the inventory key is dropped. Its layout, position by position, is stated by `MergedHeaderLeft` and `MergedHeaderRight`. |
| Join.JoinRow | auditd.py:51 | A merged row holds the audit cells at their own positions. Each inventory cell other than the key follows them, one place earlier if it comes after the key. Its length is the sum of both row lengths minus one. |
| Join.MergedHeaderLeft | auditd.py:51 | The audit columns come first in the merged frame. Each gets `_x` exactly when the inventory has a non-key column of that name. |
| Join.MergedHeaderRight | auditd.py:51 | The inventory columns other than the key follow the audit columns in their own order. Each gets `_y` exactly when the audit table has a column of that name. |
| Join.RenameDisjoint | auditd.py:51 | A name that the other side does not have keeps its spelling. |
| Join.MergedHeaderCount | auditd.py:51 | Take a name that is not the key and does not end in `_x` or `_y`. It labels no merged column if both tables have it. Otherwise it labels as many merged columns as it labels in its own table. |
| Join.MatchingPairs | auditd.py:51 | The pairs are exactly the (audit row, inventory row) pairs that agree on `Agent ID`. They are listed audit row by audit row and, within one audit row, in inventory order. |
| Join.MatchCount | auditd.py:51 | No pair is listed twice: the count equals the number of matching pairs. |
| Join.InnerJoin | auditd.py:51 | The merged frame has the merged header and one well-formed row per matching pair. Row k is the merged row of the k-th pair of `MatchingPairs`, so rows come audit row by audit row and then in inventory order. |
| Join.InnerJoinComplete | auditd.py:51 | The merged row of every matching pair is present. |
| Join.MergedFromAudit | auditd.py:51 | A column only the audit table has keeps its audit position and its audit cells in every merged row. |
| Join.MergedFromInventory | auditd.py:51 | A non-key column only the inventory has sits past the audit columns, one place earlier if it followed the key. It keeps its inventory cells. |
| Join.KeyValues | auditd.py:57 | The values `isin` tests against are exactly the inventory's `Agent ID` values. |
| Join.AntiJoin | auditd.py:57 | Every kept row has a key that is not an inventory key, and the result has one row per such audit row. |
| Join.AntiJoinComplete | auditd.py:57 | Every audit row whose key is not an inventory key is kept. |
| Join.AntiJoinSubsequence | auditd.py:57 | The kept rows are unchanged and in their original order. |
| Join.AntiJoinNoKeys | auditd.py:57 | With no inventory keys, every audit row is kept. |
| Join.PartitionRow | auditd.py:51-57 | An audit row takes part in the merge exactly when the anti-join drops it. |
| Join.Partition | auditd.py:51-57 | Every audit row is either merged or unmatched, never both. The unmatched count plus the count of merged audit rows is the audit row count. |
| Join.JoinedRowsAreMatched | auditd.py:51-57 | The audit rows that take part in the merge are exactly those whose key is an inventory key. |
| Join.SplitCount | auditd.py:57 | The rows whose key is in the key set and the rows whose key is not add up to all rows. |
| Join.AntiJoinEmpty | auditd.py:57-58 | The anti-join keeps at least one row exactly when some row has a key outside the key set, so `.empty` is false exactly then. |
| Reconciler.ReconcileTables | auditd.py:42-66 | On trimmed tables, the run stops in exactly these cases: `MissingKey` (carrying both column lists) when a table lacks `Agent ID`; `KeyNotUnique` when the key labels two columns; `ColumnNotFound` when a report column is missing from the merged header. Otherwise `resultado.csv` is well-formed, holds only report columns and has one row per matching pair. `sin_coincidencia.csv` is written exactly when some audit row is unmatched. It is never empty, and it holds the audit header and the anti-join rows. |
| Reconciler.Reconcile | auditd.py:34-47 | The run stops on a load failure exactly when either read failed. It stops on a missing key exactly when both files loaded and a header lacks `Agent ID` once its names are stripped. |
| Reconciler.HeaderPaddingIrrelevant | auditd.py:19-43 | Trimming the headers beforehand does not change the outcome: whitespace around names is irrelevant. |
| Reconciler.EmptyInventory | auditd.py:51-64 | With an inventory without rows, `resultado.csv` has no rows. The whole audit table is unmatched, or nothing is when the audit table is empty too. |
| Reconciler.ReconcilePartition | auditd.py:51-57 | The rows of `sin_coincidencia.csv` plus the merged audit rows add up to the audit row count. |
| Reconciler.OutputColumnsArePlain | auditd.py:52 | No report column is the key or ends in a merge suffix. |
| Reconciler.SharedColumnFails | auditd.py:51-66 | A report column that both tables have is renamed on both sides by the merge, so the run stops with `ColumnNotFound`. |
| Reconciler.MergedPosition | auditd.py:51-52 | Take a report column that exactly one table defines, exactly once. It labels exactly one merged column, and that column carries the defining table's cell for every pair. |
| Reconciler.ProjectedColumns | auditd.py:51-52 | When every report column comes from exactly one table, the run writes `resultado.csv` with exactly the five report columns, in order. |
| Reconciler.ProjectedRow | auditd.py:51-52 | Under that condition, row k of `resultado.csv` comes from the k-th matching pair in the merge's order. Its five cells are the cells of that pair under the report column names. |
| Reconciler.ProjectedCells | auditd.py:51-52 | Under that condition, `resultado.csv` has one row per matching pair, in the merge's order. Each row holds the five cells of its pair, each taken from the table that defines the column. |

## Left out

- Reading and writing CSV text (`pd.read_csv`, `to_csv`) is not modelled. Files enter as a parsed
  `Table` or a `LoadError`, and results leave as tables in the `Report`.
- The interactive `leer_datos` loop (prompts, `.csv` extension check, `os.path.isfile`) is input
  handling around the core and is not modelled.
- Console messages are not modelled. The load error kind exists in the model only because the
  source prints it; it never affects the outcome.
- Type inference and missing values are not modelled. Every cell is a string, and keys match by
  string equality. pandas would compare inferred integers and would match empty (NaN) keys with
  each other. pandas also refuses to merge when the two key columns infer different types (text
  against integers). The source reports that as a caught processing error, and the model never
  stops on that path.
- A failure to write `resultado.csv` or `sin_coincidencia.csv` is not modelled. The source reports
  it as a caught exception after `resultado.csv` may already exist.
- ReconcileTables: the row order of `resultado.csv` follows pandas 2.2 and later (audit order, then
  inventory order). Older pandas grouped the rows by key.
- ReconcileTables: pandas rejects a merge whose `_x`/`_y` suffixes create a name that already
  exists. The model lets the duplicate name through.
- Reconciler.ProjectedColumns: the exact five-column and cell-origin results assume that no report
  column appears in both tables and none appears twice in one. A column in both tables is covered by
  `SharedColumnFails`. A name that appears twice in one table is covered by `Project`, which states
  which columns are taken, in what order and how many times.
