# Interactive Brokers Flex trade ingestion: a verified model

`flex_query_transactions.py` is a cron script. It asks the Interactive
Brokers Flex Web Service for a statement and turns every `Trade` element of
that statement into one row. It then merges the rows into the
`ib_transactions` table, dropping rows that repeat an earlier row, and
replaces the table with the result. This project models the three pieces of
logic in the script and proves properties of them:

- **Reference-code extraction** (`reference_code.dfy`, on top of `text.dfy`).
  The script checks the response for `<ReferenceCode>` and stops if the tag
  is missing. Otherwise it takes
  `split("<ReferenceCode>")[1].split("</ReferenceCode>")[0]`. Python's
  `in`, `find` and `split` are modelled on `seq<char>`.
- **Trade extraction** (`extractor.dfy`). Each `Trade` element is a map of
  its attributes. The dictionary literal becomes a schema of 19 fields: the
  column name, the attribute it is read from, and whether it is numeric.
  The loop that appends to `trades` is a method proved against a
  specification function.
- **Merge and deduplicate** (`frame.dfy`, `reconciler.dfy`). Rows are maps
  from column to cell, and a missing column reads as "no value". The model
  covers the `common` column list, `pd.concat`, and
  `drop_duplicates(subset=common)` with pandas' default `keep="first"`,
  under which two missing values compare equal.
- **One run** (`ingest.dfy`). The table is a class whose rows are replaced
  wholesale. `Run` chains the steps above with the script's guards: no
  reference code, no trades, a read failure giving an empty frame, and a
  failed save.

The script's behaviour, as modelled, differs from what a reader of its
purpose might expect in these ways:

- The script has no fingerprint, no symbol normaliser and no
  append-with-unique-constraint strategy. The key is the list of columns
  shared by the batch and the stored table, and the only strategy is a
  rebuild that replaces the table.
- The script reports only the length of the merged table. It does not
  report how many rows of the batch were already stored.
- An attribute that is present but not numeric is not turned into "no
  value". `float()` raises, nothing catches it, and the run aborts
  (`BadNumber`).
- Ingesting the same batch twice is guaranteed to leave the table unchanged
  when the stored table already has every batch column (`ReingestIsNoOp`).
  Otherwise the first merge deduplicates on fewer columns than the second,
  and the second run can add rows (`ReingestAfterNewColumnAddsRow`). The
  table settles one run later in every case (`ReingestConverges`).
- Missing environment variables are not checked before network access.
  They become part of the URL. This is outside the model.

## Model

| member | source | states |
|---|---|---|
| `Text.Contains` | flex_query_transactions.py:18 | Python's `in` on strings: some index of the text starts an occurrence of the pattern; `Find` and `Split` are proved to agree with it |
| `Text.Find` | flex_query_transactions.py:22 | the index returned holds an occurrence and no earlier index does; `None` means no occurrence at all |
| `Text.Split` | flex_query_transactions.py:22 | `split` gives at least one piece, and at least two exactly when the separator occurs |
| `Text.JoinSplit` | flex_query_transactions.py:22 | joining the pieces of a split with the separator gives back the original string |
| `Text.SplitPiecesAreFree` | flex_query_transactions.py:22 | no piece of a split contains the separator |
| `Text.FirstPiece` | flex_query_transactions.py:22 | the first piece is the text before the first occurrence of the separator, or the whole string: a prefix in which no occurrence starts, followed by the separator or the end |
| `ReferenceCode.ExtractReferenceCode` | flex_query_transactions.py:18-22 | a code is extracted exactly when the response contains `<ReferenceCode>`; otherwise the run exits |
| `ReferenceCode.ReferenceCodeLocated` | flex_query_transactions.py:22 | the code starts right after the first `<ReferenceCode>` and ends at the next tag or at the end of the text; it contains neither tag |
| `ReferenceCode.ExtractEmbedded` | flex_query_transactions.py:18-22 | a code without `<`, put in a `<ReferenceCode>` element after text without that tag, is extracted unchanged |
| `Extractor.CellOf` | flex_query_transactions.py:37-55 | one dictionary value: `tr.get(attr)` for a text column, `float(attr)` or "no value" for a numeric one, failing where `float()` raises; its cases are stated by `NumericCellsParsedOrNoValue` and `TextCellsVerbatim` |
| `Extractor.RowOf` | flex_query_transactions.py:36-56 | the dictionary built from a list of fields, failing when any field's value fails; stated by `RowCell`, `RowColumns` and `RowFailsIff` |
| `Extractor.ToRow` | flex_query_transactions.py:36-56 | the dictionary appended for one `Trade` element: `RowOf` over the 19 fields of the literal, in source order |
| `Extractor.TradeRows` | flex_query_transactions.py:34-56 | the list `trades` after the loop, one dictionary per node in document order, or failure when any node fails; `ExtractTrades` is proved to compute it and `NoNodesNoTrades` covers the empty statement |
| `Extractor.ExtractTrades` | flex_query_transactions.py:34-56 | the loop yields one row per `Trade` node in document order, or fails exactly when a node has a numeric attribute that `float()` rejects |
| `Extractor.NoNodesNoTrades` | flex_query_transactions.py:34-35 | a statement without `Trade` nodes gives an empty list, not an error |
| `Extractor.NumericCellsParsedOrNoValue` | flex_query_transactions.py:46-53 | a numeric column is "no value" exactly when its attribute is absent or empty, and otherwise holds the parsed number |
| `Extractor.TextCellsVerbatim` | flex_query_transactions.py:37-55 | a text column holds its attribute unchanged, or "no value" when the attribute is absent |
| `Extractor.RowFailsIff` | flex_query_transactions.py:46-53 | building a row fails exactly when some present, non-empty numeric attribute does not parse |
| `Extractor.RowColumns` | flex_query_transactions.py:36-56 | a row has exactly the dictionary's columns |
| `Extractor.RowCell` | flex_query_transactions.py:36-56 | the row's cell in a field's column is the cell computed for that field |
| `Frame.SameKeyIff` | flex_query_transactions.py:73 | two rows have equal keys exactly when they agree on every key column |
| `Frame.FirstIndex` | flex_query_transactions.py:73 | the index returned is the earliest row carrying the key |
| `Frame.DropDuplicates` | flex_query_transactions.py:73 | `drop_duplicates(subset=keys)` with `keep="first"`: a front-to-back scan keeping a row unless an earlier row has its key; its meaning is stated by the five `DropDuplicates…` lemmas below |
| `Frame.DropDuplicatesIsSubsequence` | flex_query_transactions.py:72-73 | the result keeps some of the input rows, in their input order |
| `Frame.DropDuplicatesUniqueKeys` | flex_query_transactions.py:73 | no two result rows agree on all key columns |
| `Frame.DropDuplicatesKeepsEveryKey` | flex_query_transactions.py:73 | every key value of the input is still carried by a row of the result |
| `Frame.DropDuplicatesKeepsEarliest` | flex_query_transactions.py:73 | each result row is the earliest input row with its key, and result rows follow the order of those earliest occurrences |
| `Frame.DropDuplicatesIdempotent` | flex_query_transactions.py:73 | deduplicating twice is the same as deduplicating once |
| `Frame.MergeKeepsStoredRows` | flex_query_transactions.py:72-73 | if the stored rows are duplicate-free, all of them are kept in place, followed by the first batch row for each key not yet stored |
| `Frame.MergeAgainIsNoOp` | flex_query_transactions.py:72-73 | merging the same batch into a merge result changes nothing |
| `Reconciler.CommonColumns` | flex_query_transactions.py:70-71 | `common` holds exactly the batch columns that the stored table also has, in batch order |
| `Reconciler.Merge` | flex_query_transactions.py:66-73 | the table written back: the stored table (or an empty one when the read fails), then the batch, deduplicated on `common`, with the columns of both; with no shared column the outcome is left to `noKeyDedup`; stated by `UnreadableIsEmpty`, `MergeDeduplicates`, `MergeAppendsOnlyNewKeys` and the `Reingest…` lemmas |
| `Reconciler.UnreadableIsEmpty` | flex_query_transactions.py:66-69 | a table that cannot be read is merged exactly like an empty one |
| `Reconciler.MergeDeduplicates` | flex_query_transactions.py:66-73 | with a shared column, the merged table is a subsequence of stored rows then batch rows, unique on the shared columns, loses no key, keeps earliest rows in order, and has the columns of both |
| `Reconciler.MergeAppendsOnlyNewKeys` | flex_query_transactions.py:71-73 | if the stored rows are unique on `common`, the merge keeps them all and adds only batch rows whose key is new |
| `Reconciler.ReingestIsNoOp` | flex_query_transactions.py:66-74 | if the stored table has every batch column, a second ingestion of the same batch leaves the table as the first one left it |
| `Reconciler.ReingestConverges` | flex_query_transactions.py:66-74 | after any merge that writes, the same batch settles the table within one more run, and further runs change nothing |
| `Reconciler.ReingestAfterNewColumnAddsRow` | flex_query_transactions.py:70-73 | a stored table without the `Note` column takes in a duplicate on the second ingestion of the same batch |
| `Ingest.TradeStore.Read` | flex_query_transactions.py:66-69 | the read returns the table when it exists and can be reached, and otherwise fails |
| `Ingest.TradeStore.Replace` | flex_query_transactions.py:74 | a successful write replaces the whole table; a failed write leaves it as it was |
| `Ingest.Run` | flex_query_transactions.py:18-80 | with no reference code the run touches nothing; a bad number or an empty batch leaves the store unread and unwritten; otherwise the table becomes the merge and the reported count is its length, or on a failed save stays as it was |

## Left out

- HTTP requests, URL building, `time.sleep`, printing and environment
  lookups (lines 8-16, 25-30). These are network I/O and configuration.
  The statement download is the parameter `fetch` of `Run`.
- XML parsing with `ElementTree` (lines 30-33). The statement is given as
  the parsed sequence of `Trade` attribute maps, in document order.
- `float()` (lines 46-53). It is the parameter `parse`, and its values are
  compared by plain equality. Floating-point rounding and NaN parsed from
  text are not modelled.
- `drop_duplicates(subset=[])`, reached when no column is shared (first
  run, or unreadable table). Its behaviour depends on the pandas version.
  It is the parameter `noKeyDedup` of `Merge`, and nothing is proved
  about it.
- pandas dtype coercion in `pd.concat` and in the SQL round trip. A value
  is assumed to read back as it was written. The order of the written
  columns is not modelled: a table's columns are a set.
- `create_engine` and database errors other than an unreachable database
  or a missing table. `Ingest.TradeStore.Replace` treats a failed write as
  leaving the table unchanged. A real `if_exists="replace"` could fail
  after dropping the table. In the model a read fails only when the table
  is absent or the database is unreachable, so the model never shows a
  read that fails on an existing table followed by a write that succeeds.
  In the script that case, whenever `drop_duplicates(subset=[])` returns
  rows, replaces every stored row with the batch alone.
- Concurrent runs. The script takes no lock, and the model is one
  sequential run.
