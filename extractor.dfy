/**
 * Step 4 of the script: every `Trade` element of the statement becomes one
 * flat row of the trades DataFrame. Text attributes are copied as they are;
 * the seven numeric ones go through `float()` unless absent or empty.
 */
module Extractor {
  import opened Optional
  import opened Frame

  /** A parsed `Trade` element: its attributes; an absent attribute is not in the map. */
  type Node = map<string, string>

  /** One column of the trades DataFrame, the attribute it is read from, and whether it is numeric. */
  datatype Field = Field(column: Column, attr: string, numeric: bool)

  /** The columns of the trade dictionary, in the order the dictionary lists them. */
  const Schema: seq<Field> := [
    Field("Symbol", "symbol", false),
    Field("UnderlyingSymbol", "underlyingSymbol", false),
    Field("Description", "description", false),
    Field("AssetClass", "assetCategory", false),
    Field("Put/Call", "putCall", false),
    Field("Buy/Sell", "buySell", false),
    Field("CurrencyPrimary", "currency", false),
    Field("Expiry", "expiry", false),
    Field("TradeDate", "tradeDate", false),
    Field("TradePrice", "tradePrice", true),
    Field("ClosePrice", "closePrice", true),
    Field("IBCommissionCurrency", "ibCommissionCurrency", false),
    Field("FXRateToBase", "fxRateToBase", true),
    Field("Quantity", "quantity", true),
    Field("Proceeds", "proceeds", true),
    Field("IBCommission", "ibCommission", true),
    Field("NetCash", "netCash", true),
    Field("Strike", "strike", false),
    Field("Note", "note", false)
  ]

  /** `list(df.columns)` for a non-empty trades DataFrame. */
  const Columns: seq<Column> := seq(|Schema|, i requires 0 <= i < |Schema| => Schema[i].column)

  /** No two fields share a column, as in a dictionary literal with distinct keys. */
  predicate DistinctColumns(fields: seq<Field>) {
    forall i, j :: 0 <= i < j < |fields| ==> fields[i].column != fields[j].column
  }

  lemma SchemaColumnsDistinct()
    ensures DistinctColumns(Schema)
  {
    forall i | 0 <= i < |Schema| {
      ColumnDiffersFromLater(i);
    }
  }

  /** The column of field `i` differs from the column of every later field. */
  lemma ColumnDiffersFromLater(i: nat)
    requires i < |Schema|
    ensures forall j :: i < j < |Schema| ==> Schema[i].column != Schema[j].column
  {
  }

  /**
   * The cell of one field. A text field is `tr.get(attr)`; a numeric one is
   * `float(tr.get(attr)) if tr.get(attr) else None`. `parse` stands for
   * `float()` on a string, `None` where it raises `ValueError`, which the
   * script does not catch: the whole extraction then fails.
   */
  function CellOf(node: Node, f: Field, parse: string -> Option<real>): Option<Cell> {
    if !f.numeric then Some(if f.attr in node then Str(node[f.attr]) else NoValue)
    else if f.attr !in node || node[f.attr] == "" then Some(NoValue)
    else match parse(node[f.attr])
      case None => None
      case Some(x) => Some(Number(x))
  }

  /** The dictionary built from `fields` for one element, or `None` if `float()` fails on it. */
  function RowOf(node: Node, fields: seq<Field>, parse: string -> Option<real>): Option<Row>
    requires DistinctColumns(fields)
  {
    if forall i :: 0 <= i < |fields| ==> CellOf(node, fields[i], parse).Some? then
      Some(map i | 0 <= i < |fields| :: fields[i].column := CellOf(node, fields[i], parse).value)
    else None
  }

  /** The dictionary appended for one `Trade` element. */
  function ToRow(node: Node, parse: string -> Option<real>): Option<Row> {
    SchemaColumnsDistinct();
    RowOf(node, Schema, parse)
  }

  /** The list `trades` after the loop: one row per node, or `None` if some node fails. */
  function TradeRows(nodes: seq<Node>, parse: string -> Option<real>): Option<seq<Row>> {
    if forall i :: 0 <= i < |nodes| ==> ToRow(nodes[i], parse).Some? then
      Some(seq(|nodes|, i requires 0 <= i < |nodes| && ToRow(nodes[i], parse).Some? => ToRow(nodes[i], parse).value))
    else None
  }

  /** The `for tr in root.findall(".//Trade")` loop appending to `trades`. */
  method ExtractTrades(nodes: seq<Node>, parse: string -> Option<real>) returns (trades: Option<seq<Row>>)
    ensures trades == TradeRows(nodes, parse)
  {
    var rows: seq<Row> := [];
    for i := 0 to |nodes|
      invariant |rows| == i
      invariant forall j :: 0 <= j < i ==> ToRow(nodes[j], parse).Some? && rows[j] == ToRow(nodes[j], parse).value
    {
      var row := ToRow(nodes[i], parse);
      if row.None? {
        return None;
      }
      rows := rows + [row.value];
    }
    assert TradeRows(nodes, parse).Some?;
    assert rows == TradeRows(nodes, parse).value;
    return Some(rows);
  }

  /** The row's cell in a field's column is that field's cell. */
  lemma RowCell(node: Node, fields: seq<Field>, parse: string -> Option<real>, i: nat)
    requires DistinctColumns(fields) && RowOf(node, fields, parse).Some? && i < |fields|
    ensures Get(RowOf(node, fields, parse).value, fields[i].column) == CellOf(node, fields[i], parse).value
  {
    var row := RowOf(node, fields, parse).value;
    assert fields[i].column in row;
  }

  /** A row has exactly the fields' columns. */
  lemma RowColumns(node: Node, fields: seq<Field>, parse: string -> Option<real>)
    requires DistinctColumns(fields) && RowOf(node, fields, parse).Some?
    ensures forall c :: c in RowOf(node, fields, parse).value <==> exists i :: 0 <= i < |fields| && fields[i].column == c
  {
  }

  /**
   * A numeric column holds "no value" exactly when its attribute is absent or
   * empty; otherwise it holds the parsed number, never a default.
   */
  lemma NumericCellsParsedOrNoValue(node: Node, fields: seq<Field>, parse: string -> Option<real>)
    requires DistinctColumns(fields) && RowOf(node, fields, parse).Some?
    ensures forall i :: 0 <= i < |fields| && fields[i].numeric ==>
      var a, cell := fields[i].attr, Get(RowOf(node, fields, parse).value, fields[i].column);
      && (cell == NoValue <==> a !in node || node[a] == "")
      && (cell != NoValue ==> cell.Number? && a in node && parse(node[a]) == Some(cell.value))
  {
    forall i | 0 <= i < |fields| && fields[i].numeric {
      RowCell(node, fields, parse, i);
    }
  }

  /** A text column holds its attribute unchanged, or "no value" when the attribute is absent. */
  lemma TextCellsVerbatim(node: Node, fields: seq<Field>, parse: string -> Option<real>)
    requires DistinctColumns(fields) && RowOf(node, fields, parse).Some?
    ensures forall i :: 0 <= i < |fields| && !fields[i].numeric ==>
      Get(RowOf(node, fields, parse).value, fields[i].column)
        == if fields[i].attr in node then Str(node[fields[i].attr]) else NoValue
  {
    forall i | 0 <= i < |fields| && !fields[i].numeric {
      RowCell(node, fields, parse, i);
    }
  }

  /** Building a row fails exactly when a present, non-empty numeric attribute does not parse. */
  lemma RowFailsIff(node: Node, fields: seq<Field>, parse: string -> Option<real>)
    requires DistinctColumns(fields)
    ensures RowOf(node, fields, parse).None? <==>
      exists i :: 0 <= i < |fields| && fields[i].numeric && fields[i].attr in node
        && node[fields[i].attr] != "" && parse(node[fields[i].attr]).None?
  {
  }

  /** A statement without `Trade` elements gives an empty list, not an error. */
  lemma NoNodesNoTrades(parse: string -> Option<real>)
    ensures TradeRows([], parse) == Some([])
  {
    assert |TradeRows([], parse).value| == 0;
  }
}
