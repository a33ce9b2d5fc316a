/**
 * Lines 66-75 of the script: read the stored table (an empty frame when the
 * read fails), append the new batch, drop rows that repeat an earlier row on
 * every column the batch and the stored table share, and replace the table.
 */
module Reconciler {
  import opened Optional
  import opened Frame

  /** A stored table: its columns and its rows. */
  datatype Table = Table(columns: set<Column>, rows: seq<Row>)

  /** `pd.DataFrame()`: what a failed read leaves in `df_old`. */
  const EmptyTable: Table := Table({}, [])

  /** `common`: the batch's columns, in the batch's order, that the stored table also has. */
  function CommonColumns(batchColumns: seq<Column>, stored: set<Column>): (common: seq<Column>)
    ensures forall c :: c in common <==> c in batchColumns && c in stored
    ensures IsSubsequence(common, batchColumns)
    ensures (forall c :: c in batchColumns ==> c in stored) ==> common == batchColumns
  {
    if batchColumns == [] then []
    else if batchColumns[0] in stored then [batchColumns[0]] + CommonColumns(batchColumns[1..], stored)
    else CommonColumns(batchColumns[1..], stored)
  }

  /**
   * `df_merged` as written back: the stored rows (none if the read failed)
   * followed by the batch, deduplicated on `common`; its columns are the union
   * of both. With no common column the result is whatever pandas does with
   * `drop_duplicates(subset=[])`, given by `noKeyDedup` (`None` when it
   * raises, which the script reports as a failed save).
   */
  function Merge(stored: Option<Table>, batchColumns: seq<Column>, batch: seq<Row>,
                 noKeyDedup: seq<Row> -> Option<seq<Row>>): Option<Table>
  {
    var prior := if stored.Some? then stored.value else EmptyTable;
    var common := CommonColumns(batchColumns, prior.columns);
    var rows := prior.rows + batch;
    var columns := prior.columns + (set c | c in batchColumns);
    if common != [] then Some(Table(columns, DropDuplicates(rows, common)))
    else match noKeyDedup(rows)
      case None => None
      case Some(r) => Some(Table(columns, r))
  }

  /** A table that cannot be read is merged exactly like an empty one. */
  lemma UnreadableIsEmpty(batchColumns: seq<Column>, batch: seq<Row>, noKeyDedup: seq<Row> -> Option<seq<Row>>)
    ensures Merge(None, batchColumns, batch, noKeyDedup) == Merge(Some(EmptyTable), batchColumns, batch, noKeyDedup)
  {
  }

  /**
   * With at least one shared column, the merged table keeps some of the stored
   * rows followed by batch rows, in order; no two of its rows agree on every
   * shared column; every shared-column value of stored and batch rows survives,
   * carried by its earliest row; and it has every column of both.
   */
  lemma MergeDeduplicates(stored: Table, batchColumns: seq<Column>, batch: seq<Row>,
                          noKeyDedup: seq<Row> -> Option<seq<Row>>)
    requires CommonColumns(batchColumns, stored.columns) != []
    ensures var common := CommonColumns(batchColumns, stored.columns);
      var all := stored.rows + batch;
      var merged := Merge(Some(stored), batchColumns, batch, noKeyDedup);
      && merged.Some?
      && IsSubsequence(merged.value.rows, all)
      && UniqueKeys(merged.value.rows, common)
      && KeySet(merged.value.rows, common) == KeySet(all, common)
      && EarliestRows(merged.value.rows, all, common)
      && InFirstOccurrenceOrder(merged.value.rows, all, common)
      && merged.value.columns == stored.columns + (set c | c in batchColumns)
  {
    var common := CommonColumns(batchColumns, stored.columns);
    var all := stored.rows + batch;
    DropDuplicatesIsSubsequence(all, common);
    DropDuplicatesUniqueKeys(all, common);
    DropDuplicatesKeepsEveryKey(all, common);
    DropDuplicatesKeepsEarliest(all, common);
  }

  /**
   * When the stored table already has every batch column, ingesting the same
   * batch a second time leaves the table exactly as the first time left it.
   */
  lemma ReingestIsNoOp(stored: Table, batchColumns: seq<Column>, batch: seq<Row>,
                       noKeyDedup: seq<Row> -> Option<seq<Row>>)
    requires batchColumns != []
    requires forall c :: c in batchColumns ==> c in stored.columns
    ensures var merged := Merge(Some(stored), batchColumns, batch, noKeyDedup);
      merged.Some? && Merge(merged, batchColumns, batch, noKeyDedup) == merged
  {
    var merged := Merge(Some(stored), batchColumns, batch, noKeyDedup);
    assert CommonColumns(batchColumns, stored.columns) == batchColumns;
    assert merged.Some?;
    var t := merged.value;
    assert t.columns == stored.columns;
    assert CommonColumns(batchColumns, t.columns) == batchColumns;
    MergeAgainIsNoOp(stored.rows, batch, batchColumns);
    assert t.columns + (set c | c in batchColumns) == t.columns;
  }

  /**
   * After any merge that writes a table, the table has every batch column, so
   * re-ingesting the same batch settles after one more run: from then on the
   * table no longer changes.
   */
  lemma ReingestConverges(stored: Option<Table>, batchColumns: seq<Column>, batch: seq<Row>,
                          noKeyDedup: seq<Row> -> Option<seq<Row>>)
    requires batchColumns != []
    requires Merge(stored, batchColumns, batch, noKeyDedup).Some?
    ensures var once := Merge(stored, batchColumns, batch, noKeyDedup);
      var twice := Merge(once, batchColumns, batch, noKeyDedup);
      twice.Some? && Merge(twice, batchColumns, batch, noKeyDedup) == twice
  {
    var once := Merge(stored, batchColumns, batch, noKeyDedup).value;
    assert forall c :: c in batchColumns ==> c in once.columns;
    ReingestIsNoOp(once, batchColumns, batch, noKeyDedup);
  }

  /**
   * When the stored rows are already unique on the shared columns, no stored
   * row is lost: the merge is the stored rows followed by the batch rows whose
   * shared-column values are not stored yet.
   */
  lemma MergeAppendsOnlyNewKeys(stored: Table, batchColumns: seq<Column>, batch: seq<Row>,
                                noKeyDedup: seq<Row> -> Option<seq<Row>>)
    requires CommonColumns(batchColumns, stored.columns) != []
    requires UniqueKeys(stored.rows, CommonColumns(batchColumns, stored.columns))
    ensures var common := CommonColumns(batchColumns, stored.columns);
      Merge(Some(stored), batchColumns, batch, noKeyDedup).value.rows
        == stored.rows + DropDuplicatesFrom(batch, common, KeySet(stored.rows, common))
  {
    MergeKeepsStoredRows(stored.rows, batch, CommonColumns(batchColumns, stored.columns));
  }

  /**
   * `ReingestIsNoOp` needs the stored table to have every batch column: a
   * table written before the `Note` column existed deduplicates the first
   * time on `Symbol` alone, and the second time, on `Symbol` and `Note`,
   * takes the batch row in beside the stored one.
   */
  lemma ReingestAfterNewColumnAddsRow(noKeyDedup: seq<Row> -> Option<seq<Row>>)
    ensures var stored := Table({"Symbol"}, [map["Symbol" := Str("AAPL")]]);
      var batch := [map["Symbol" := Str("AAPL"), "Note" := Str("P")]];
      var once := Merge(Some(stored), ["Symbol", "Note"], batch, noKeyDedup);
      var twice := Merge(once, ["Symbol", "Note"], batch, noKeyDedup);
      once.Some? && |once.value.rows| == 1 && twice.Some? && |twice.value.rows| == 2
  {
    var s0: Row := map["Symbol" := Str("AAPL")];
    var row: Row := map["Symbol" := Str("AAPL"), "Note" := Str("P")];
    var stored := Table({"Symbol"}, [s0]);
    var cols := ["Symbol", "Note"];
    assert "Note" !in stored.columns;
    assert CommonColumns(cols, stored.columns) == ["Symbol"];
    var k := KeyOf(s0, ["Symbol"]);
    assert KeyOf(row, ["Symbol"]) == k;
    assert stored.rows + [row] == [s0, row];
    assert DropDuplicatesFrom([row], ["Symbol"], {k}) == [];
    assert [s0, row][1..] == [row];
    var none: set<Key> := {};
    assert none + {k} == {k};
    assert DropDuplicates([s0, row], ["Symbol"]) == [s0] + DropDuplicatesFrom([row], ["Symbol"], {k});
    var once := Merge(Some(stored), cols, [row], noKeyDedup).value;
    assert once.rows == [s0];
    assert "Note" in once.columns && "Symbol" in once.columns;
    assert CommonColumns(cols, once.columns) == cols;
    var k0, k1 := KeyOf(s0, cols), KeyOf(row, cols);
    assert k0[1] == NoValue && k1[1] == Str("P");
    assert once.rows + [row] == [s0, row];
    assert DropDuplicatesFrom([row], cols, {k0}) == [row];
    assert none + {k0} == {k0};
    assert DropDuplicatesFrom([row], cols, {k0}) == [row] + DropDuplicatesFrom([], cols, {k0, k1});
    assert DropDuplicates([s0, row], cols) == [s0] + DropDuplicatesFrom([row], cols, {k0});
  }
}
