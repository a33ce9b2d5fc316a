/**
 * One run of the script, from the `SendRequest` response to the table write:
 * the reference-code guard, the statement download (a parameter), the trade
 * loop, the empty-batch guard, and the read-merge-replace of the table.
 */
module Ingest {
  import opened Optional
  import opened Text
  import opened ReferenceCode
  import opened Frame
  import opened Extractor
  import opened Reconciler

  /**
   * The `ib_transactions` table behind `DB_URL`. `present` says whether the
   * table exists, `reachable` whether the database can be opened; `accesses`
   * counts reads and writes.
   */
  class TradeStore {
    var present: bool
    var reachable: bool
    var table: Table
    ghost var accesses: nat

    constructor (present: bool, reachable: bool, table: Table)
      ensures this.present == present && this.reachable == reachable && this.table == table
      ensures accesses == 0
    {
      this.present := present;
      this.reachable := reachable;
      this.table := table;
      accesses := 0;
    }

    /** `pd.read_sql(TABLE_NAME, engine)`; `None` where it raises. */
    method Read() returns (t: Option<Table>)
      modifies this`accesses
      ensures accesses == old(accesses) + 1
      ensures t == if present && reachable then Some(table) else None
    {
      accesses := accesses + 1;
      t := if present && reachable then Some(table) else None;
    }

    /** `to_sql(TABLE_NAME, engine, if_exists="replace")`; `false` where it raises. */
    method Replace(t: Table) returns (ok: bool)
      modifies this
      ensures accesses == old(accesses) + 1 && reachable == old(reachable)
      ensures ok == reachable
      ensures ok ==> present && table == t
      ensures !ok ==> present == old(present) && table == old(table)
    {
      accesses := accesses + 1;
      ok := reachable;
      if ok {
        present, table := true, t;
      }
    }
  }

  /** How a run ends, with the reference code once one was found. */
  datatype RunOutcome =
    | NoReferenceCode                 // the early exit()
    | BadNumber(code: string)         // float() raised inside the trade loop
    | NoTrades(code: string)          // "No new trades found"
    | SaveFailed(code: string)        // "Error while saving to database"
    | Saved(code: string, count: nat) // "Successfully saved {count} unique records"

  /**
   * One run. `fetch` is the `GetStatement` download for a reference code
   * (already parsed into `Trade` elements), `parse` is `float()`, and
   * `noKeyDedup` is pandas' `drop_duplicates(subset=[])`.
   */
  method Run(store: TradeStore, response: string, fetch: string -> seq<Node>,
             parse: string -> Option<real>, noKeyDedup: seq<Row> -> Option<seq<Row>>)
    returns (outcome: RunOutcome)
    modifies store
    ensures outcome.NoReferenceCode? <==> !Contains(response, OpenTag)
    ensures match ExtractReferenceCode(response)
      case None => unchanged(store)
      case Some(code) =>
        match TradeRows(fetch(code), parse)
        case None => outcome == BadNumber(code) && unchanged(store)
        case Some(batch) =>
          if batch == [] then outcome == NoTrades(code) && unchanged(store)
          else
            var read := if old(store.present && store.reachable) then Some(old(store.table)) else None;
            var merged := Merge(read, Columns, batch, noKeyDedup);
            && store.reachable == old(store.reachable)
            && (merged.Some? && old(store.reachable) ==>
                  outcome == Saved(code, |merged.value.rows|) && store.present && store.table == merged.value)
            && (merged.None? || !old(store.reachable) ==>
                  outcome == SaveFailed(code) && store.present == old(store.present) && store.table == old(store.table))
  {
    var code := ExtractReferenceCode(response);
    if code.None? {
      return NoReferenceCode;
    }
    var trades := ExtractTrades(fetch(code.value), parse);
    if trades.None? {
      return BadNumber(code.value);
    }
    var batch := trades.value;
    if batch == [] {
      return NoTrades(code.value);
    }
    var read := store.Read();
    var merged := Merge(read, Columns, batch, noKeyDedup);
    if merged.None? {
      return SaveFailed(code.value);
    }
    var ok := store.Replace(merged.value);
    if ok {
      outcome := Saved(code.value, |merged.value.rows|);
    } else {
      outcome := SaveFailed(code.value);
    }
  }
}
