/**
 * INSERT between loading the table and writing it back: synthesise an id when
 * the statement leaves it out, build the new row from the table's header,
 * append it, and collect the RETURNING columns.
 */
module Insert {
  import opened Wrappers
  import opened JsText
  import opened JsValues

  /** The parsed INSERT statement. */
  datatype InsertStatement = InsertStatement(
    table: string,
    columns: seq<string>,
    values: seq<string>,
    returningColumns: seq<string>)

  /** The rows to write back and what the statement returns. */
  datatype Inserted = Inserted(rows: seq<Row>, message: string, insertedId: Option<int>, returning: Row)

  const Message := "Row inserted successfully."

  /** An id is synthesised when the statement has no `id` column and the table's first row has one. */
  predicate NeedsId(data: seq<Row>, columns: seq<string>) {
    "id" !in columns && |data| > 0 && "id" in data[0]
  }

  /** `parseInt(row.id)`; None stands for NaN. */
  function IdOf(row: Row): Option<int> {
    ParseInt(Get(row, "id"))
  }

  /**
   * `data.map(read).filter(id => !isNaN(id))`: the integers the rows read as,
   * in table order. The reader is a parameter so that the properties below hold
   * for any way of reading an id; the engine uses `IdOf`.
   */
  function Ids(data: seq<Row>, read: Row -> Option<int>): (r: seq<int>)
    ensures forall x :: x in r <==> exists i :: 0 <= i < |data| && read(data[i]) == Some(x)
  {
    if data == [] then []
    else
      var rest := Ids(data[..|data| - 1], read);
      assert forall i :: 0 <= i < |data| - 1 ==> data[..|data| - 1][i] == data[i];
      match read(data[|data| - 1])
      case None => rest
      case Some(x) => rest + [x]
  }

  /** `Math.max(...ids)` over a non-empty list. */
  function Largest(ids: seq<int>): (r: int)
    requires ids != []
    ensures r in ids && forall x :: x in ids ==> x <= r
  {
    if |ids| == 1 then ids[0]
    else
      var m := Largest(ids[..|ids| - 1]);
      assert forall x :: x in ids ==> x in ids[..|ids| - 1] || x == ids[|ids| - 1];
      if ids[|ids| - 1] > m then ids[|ids| - 1] else m
  }

  /** `(ids.length > 0 ? Math.max(...ids) : 0) + 1`. */
  function Next(ids: seq<int>): int {
    (if ids == [] then 0 else Largest(ids)) + 1
  }

  /** The id INSERT synthesises for the table. */
  function NextId(data: seq<Row>): int {
    Next(Ids(data, IdOf))
  }

  /** The column list after the synthesised `id` is pushed. */
  function AllColumns(data: seq<Row>, columns: seq<string>): seq<string> {
    if NeedsId(data, columns) then columns + ["id"] else columns
  }

  /** The value list after the synthesised id's text is pushed. */
  function AllValues(data: seq<Row>, columns: seq<string>, values: seq<string>): seq<string> {
    if NeedsId(data, columns) then values + [IntToString(NextId(data))] else values
  }

  /** The keys of the first row, or the column list when the table is empty. */
  function Headers(data: seq<Row>, columns: seq<string>): set<string> {
    if |data| > 0 then data[0].Keys else set c | c in columns
  }

  /** `columns.indexOf(x)`: the first position, or -1. */
  function IndexOf(xs: seq<string>, x: string): (i: int)
    ensures x !in xs <==> i == -1
    ensures x in xs ==> 0 <= i < |xs| && xs[i] == x && x !in xs[..i]
  {
    if xs == [] then -1
    else if xs[0] == x then 0
    else
      var j := IndexOf(xs[1..], x);
      assert j >= 0 ==> xs[..j + 1] == [xs[0]] + xs[1..][..j];
      if j == -1 then -1 else j + 1
  }

  /**
   * One pair of enclosing single quotes removed. A lone `'` both starts and
   * ends with a quote, but `substring(1, 0)` swaps its bounds and gives it back whole.
   */
  function StripQuotes(v: string): (r: string)
    ensures |v| >= 2 && v[0] == '\'' && v[|v| - 1] == '\'' ==> r == v[1..|v| - 1]
    ensures !(|v| >= 2 && v[0] == '\'' && v[|v| - 1] == '\'') ==> r == v
  {
    if |v| >= 1 && v[0] == '\'' && v[|v| - 1] == '\'' then
      if |v| >= 2 then v[1..|v| - 1] else v
    else v
  }

  /** The value stored under one header, or the error of reading a value past the end of the list. */
  function Cell(columns: seq<string>, values: seq<string>, header: string): Result<Value, Error> {
    var i := IndexOf(columns, header);
    if i == -1 then Ok(Str(""))
    else if i >= |values| then Failure(MissingInsertValue)
    else Ok(Str(StripQuotes(values[i])))
  }

  /** Some header picks a column that has no value. */
  predicate ValueMissing(data: seq<Row>, stmt: InsertStatement) {
    exists h :: h in Headers(data, stmt.columns) &&
      Cell(AllColumns(data, stmt.columns), AllValues(data, stmt.columns, stmt.values), h).Failure?
  }

  /** The new row: every header, with its supplied value or "". */
  function NewRow(data: seq<Row>, stmt: InsertStatement): Row
    requires !ValueMissing(data, stmt)
  {
    var cols := AllColumns(data, stmt.columns);
    var vals := AllValues(data, stmt.columns, stmt.values);
    map h | h in Headers(data, stmt.columns) :: Cell(cols, vals, h).value
  }

  /** `returningResult[column] = newRow[column]` for every RETURNING column. */
  function Returning(row: Row, columns: seq<string>): Row {
    map c | c in columns :: Get(row, c)
  }

  /** What INSERT writes back and returns. */
  function InsertResult(data: seq<Row>, stmt: InsertStatement): Result<Inserted, Error> {
    if ValueMissing(data, stmt) then Failure(MissingInsertValue)
    else
      var row := NewRow(data, stmt);
      Ok(Inserted(data + [row], Message,
         if NeedsId(data, stmt.columns) then Some(NextId(data)) else None,
         Returning(row, stmt.returningColumns)))
  }

  // ---- The statement, as the engine runs it ----

  /** The new row over the given header, column and value lists. */
  function RowFrom(headers: set<string>, columns: seq<string>, values: seq<string>): Row
    requires forall h :: h in headers ==> Cell(columns, values, h).Ok?
  {
    map h | h in headers :: Cell(columns, values, h).value
  }

  /**
   * `headers.forEach(...)`: the new row, header by header; reading a value past
   * the end of the list fails. The caller has already pushed any synthesised id,
   * so an `id` header always has its column.
   */
  method BuildRow(headers: set<string>, columns: seq<string>, values: seq<string>) returns (r: Result<Row, Error>)
    requires "id" in headers ==> "id" in columns
    ensures r.Failure? <==> exists h :: h in headers && Cell(columns, values, h).Failure?
    ensures r.Failure? ==> r.error == MissingInsertValue
    ensures r.Ok? ==> (forall h :: h in headers ==> Cell(columns, values, h).Ok?) && r.value == RowFrom(headers, columns, values)
  {
    var todo := headers;
    var newRow: Row := map[];
    while todo != {}
      invariant todo <= headers
      invariant newRow.Keys == headers - todo
      invariant forall h :: h in newRow ==> Cell(columns, values, h) == Ok(newRow[h])
      decreases |todo|
    {
      var header :| header in todo;
      var columnIndex := IndexOf(columns, header);
      if columnIndex != -1 {
        if columnIndex >= |values| {
          assert Cell(columns, values, header).Failure?;
          return Failure(MissingInsertValue);
        }
        var value := values[columnIndex];
        newRow := newRow[header := Str(StripQuotes(value))];
      } else {
        // `header === 'id' ? newId.toString() : ''`: a header missing from the columns is never `id`.
        assert header != "id";
        newRow := newRow[header := Str("")];
      }
      todo := todo - {header};
    }
    r := Ok(newRow);
  }

  /** `returningColumns.forEach(...)`. */
  method CollectReturning(newRow: Row, returningColumns: seq<string>) returns (result: Row)
    ensures result == Returning(newRow, returningColumns)
  {
    result := map[];
    for i := 0 to |returningColumns|
      invariant result == Returning(newRow, returningColumns[..i])
    {
      assert forall c :: c in returningColumns[..i + 1] <==> c in returningColumns[..i] || c == returningColumns[i];
      result := result[returningColumns[i] := Get(newRow, returningColumns[i])];
    }
    assert returningColumns[..|returningColumns|] == returningColumns;
  }

  /** `executeINSERTQuery` on the loaded table. */
  method ExecuteInsert(data: seq<Row>, stmt: InsertStatement) returns (r: Result<Inserted, Error>)
    ensures r == InsertResult(data, stmt)
  {
    var newId: Option<int> := None;
    var columns := stmt.columns;
    var values := stmt.values;
    if "id" !in columns && |data| > 0 && "id" in data[0] {
      var id := NextId(data);
      newId := Some(id);
      columns := columns + ["id"];
      values := values + [IntToString(id)];
    }
    var headers := if |data| > 0 then data[0].Keys else set c | c in columns;
    var row := BuildRow(headers, columns, values);
    if row.Failure? {
      return Failure(row.error);
    }
    var returning := CollectReturning(row.value, stmt.returningColumns);
    return Ok(Inserted(data + [row.value], Message, newId, returning));
  }

  // ---- Properties ----

  /** An id comes back exactly when one was synthesised, and it is one more than the largest parsed id, or 1. */
  lemma InsertedId(data: seq<Row>, stmt: InsertStatement)
    requires InsertResult(data, stmt).Ok?
    ensures var id := InsertResult(data, stmt).value.insertedId;
      (id.Some? <==> NeedsId(data, stmt.columns)) &&
      (id.Some? ==> id.value == NextId(data))
  {
  }

  /** Whatever the reader, the next id is above every id read, one more than one of them, or 1 when none reads. */
  lemma NextFresh(data: seq<Row>, read: Row -> Option<int>)
    ensures forall i :: 0 <= i < |data| && read(data[i]).Some? ==> read(data[i]).value < Next(Ids(data, read))
    ensures (forall i :: 0 <= i < |data| ==> read(data[i]).None?) ==> Next(Ids(data, read)) == 1
    ensures (exists i :: 0 <= i < |data| && read(data[i]).Some?) ==>
      exists i :: 0 <= i < |data| && read(data[i]) == Some(Next(Ids(data, read)) - 1)
  {
    IdsBelowNext(data, read);
    var ids := Ids(data, read);
    if ids != [] {
      assert exists i :: 0 <= i < |data| && read(data[i]) == Some(Next(ids) - 1) by {
        assert Largest(ids) in ids;
      }
    } else {
      assert forall i :: 0 <= i < |data| ==> read(data[i]).None?;
    }
  }

  /** Every id read is below the next id. */
  lemma IdsBelowNext(data: seq<Row>, read: Row -> Option<int>)
    ensures forall i :: 0 <= i < |data| && read(data[i]).Some? ==> read(data[i]).value < Next(Ids(data, read))
  {
    var ids := Ids(data, read);
    forall i | 0 <= i < |data| && read(data[i]).Some?
      ensures read(data[i]).value < Next(ids)
    {
      assert read(data[i]) == Some(read(data[i]).value);
      assert read(data[i]).value in ids;
    }
  }

  /** The table grows by the new row at the end; the earlier rows are untouched. */
  lemma TableGrows(data: seq<Row>, stmt: InsertStatement)
    requires InsertResult(data, stmt).Ok?
    ensures var rows := InsertResult(data, stmt).value.rows;
      |rows| == |data| + 1 && rows[..|data|] == data
  {
    var rows := InsertResult(data, stmt).value.rows;
    assert rows == data + [rows[|data|]];
  }

  /** The new row has the first row's keys, or the statement's columns when the table is empty. */
  lemma NewRowKeys(data: seq<Row>, stmt: InsertStatement)
    requires InsertResult(data, stmt).Ok?
    ensures InsertResult(data, stmt).value.rows[|data|].Keys ==
      (if |data| > 0 then data[0].Keys else set c | c in stmt.columns)
  {
  }

  /**
   * A header the statement supplies is stored without one pair of enclosing
   * quotes, and a header it does not supply (other than a synthesised `id`) is "".
   */
  lemma NewRowCells(data: seq<Row>, stmt: InsertStatement, h: string)
    requires InsertResult(data, stmt).Ok?
    requires h in InsertResult(data, stmt).value.rows[|data|]
    ensures var row := InsertResult(data, stmt).value.rows[|data|];
      (h in stmt.columns ==>
        var i := IndexOf(stmt.columns, h); i < |stmt.values| && row[h] == Str(StripQuotes(stmt.values[i]))) &&
      (h !in stmt.columns && h != "id" ==> row[h] == Str(""))
  {
    var cols := AllColumns(data, stmt.columns);
    var vals := AllValues(data, stmt.columns, stmt.values);
    var row := InsertResult(data, stmt).value.rows[|data|];
    assert row == NewRow(data, stmt);
    assert h in Headers(data, stmt.columns) && row[h] == Cell(cols, vals, h).value;
    if h in stmt.columns {
      var i := IndexOf(stmt.columns, h);
      if NeedsId(data, stmt.columns) {
        IndexOfAppend(stmt.columns, ["id"], h);
        IndexOfAppend(stmt.columns, ["id"], "id");
        // The `id` header has a value, so the values reach past the columns.
        assert Cell(cols, vals, "id").Ok?;
        assert |stmt.columns| < |vals| == |stmt.values| + 1;
        assert vals[i] == stmt.values[i];
      }
      assert IndexOf(cols, h) == i;
    }
  }

  /**
   * The synthesised id's text is pushed at the end of the values, so it lands
   * in the `id` cell when there are as many values as columns; with more
   * values than columns the `id` cell takes the first value past the columns.
   */
  lemma SynthesizedIdStored(data: seq<Row>, stmt: InsertStatement)
    requires InsertResult(data, stmt).Ok? && NeedsId(data, stmt.columns)
    ensures var row := InsertResult(data, stmt).value.rows[|data|];
      "id" in row && |stmt.values| >= |stmt.columns| &&
      (|stmt.values| == |stmt.columns| ==> row["id"] == Str(IntToString(NextId(data)))) &&
      (|stmt.values| > |stmt.columns| ==> row["id"] == Str(StripQuotes(stmt.values[|stmt.columns|])))
  {
    var vals := AllValues(data, stmt.columns, stmt.values);
    assert InsertResult(data, stmt).value.rows[|data|] == NewRow(data, stmt);
    IdCell(data, stmt);
    if |stmt.values| == |stmt.columns| {
      assert vals[|stmt.columns|] == IntToString(NextId(data));
      IdTextUnquoted(NextId(data));
    } else {
      assert vals[|stmt.columns|] == stmt.values[|stmt.columns|];
    }
  }

  /** With a synthesised id, the `id` cell holds the value just past the columns, which must exist. */
  lemma IdCell(data: seq<Row>, stmt: InsertStatement)
    requires !ValueMissing(data, stmt) && NeedsId(data, stmt.columns)
    ensures |stmt.values| >= |stmt.columns|
    ensures "id" in NewRow(data, stmt)
    ensures NewRow(data, stmt)["id"] == Str(StripQuotes(AllValues(data, stmt.columns, stmt.values)[|stmt.columns|]))
  {
    var cols := AllColumns(data, stmt.columns);
    var vals := AllValues(data, stmt.columns, stmt.values);
    assert IndexOf(cols, "id") == |stmt.columns| by {
      IndexOfAppend(stmt.columns, ["id"], "id");
    }
    assert "id" in Headers(data, stmt.columns);
    assert Cell(cols, vals, "id").Ok?;
    CellAt(cols, vals, "id");
    assert |vals| == |stmt.values| + 1;
  }

  /** A header found among the columns, when its value exists, holds that value unquoted. */
  lemma CellAt(columns: seq<string>, values: seq<string>, header: string)
    requires header in columns && Cell(columns, values, header).Ok?
    ensures IndexOf(columns, header) < |values|
    ensures Cell(columns, values, header) == Ok(Str(StripQuotes(values[IndexOf(columns, header)])))
  {
  }

  /** An id's text, with or without a minus sign, never starts with a quote. */
  lemma IdTextUnquoted(n: int)
    ensures StripQuotes(IntToString(n)) == IntToString(n)
  {
    var digits := NatToString(if n < 0 then -n else n);
    assert IsDigit(digits[0]);
  }

  lemma {:induction false} IndexOfAppend(xs: seq<string>, ys: seq<string>, x: string)
    ensures x in xs ==> IndexOf(xs + ys, x) == IndexOf(xs, x)
    ensures x !in xs && x in ys ==> IndexOf(xs + ys, x) == |xs| + IndexOf(ys, x)
  {
    if xs != [] {
      assert (xs + ys)[1..] == xs[1..] + ys;
      IndexOfAppend(xs[1..], ys, x);
    } else {
      assert xs + ys == ys;
    }
  }

  /** The text of the synthesised id reads back as the id. */
  lemma SynthesizedIdReadsBack(data: seq<Row>)
    ensures ParseInt(Str(IntToString(NextId(data)))) == Some(NextId(data))
  {
    IntToStringParses(NextId(data));
  }

  /** INSERT fails exactly when some header picks a column without a value. */
  lemma MissingValueRaised(data: seq<Row>, stmt: InsertStatement)
    ensures InsertResult(data, stmt).Failure? <==>
      exists h :: h in Headers(data, stmt.columns) &&
        IndexOf(AllColumns(data, stmt.columns), h) >= |AllValues(data, stmt.columns, stmt.values)|
  {
    var cols := AllColumns(data, stmt.columns);
    var vals := AllValues(data, stmt.columns, stmt.values);
    if InsertResult(data, stmt).Failure? {
      var h :| h in Headers(data, stmt.columns) && Cell(cols, vals, h).Failure?;
      assert IndexOf(cols, h) >= |vals|;
    }
  }

  /** RETURNING maps exactly the requested columns to the new row's values (`undefined` for a column it lacks). */
  lemma ReturningContents(data: seq<Row>, stmt: InsertStatement, c: string)
    requires InsertResult(data, stmt).Ok?
    ensures var res := InsertResult(data, stmt).value;
      res.returning.Keys == (set x | x in stmt.returningColumns) &&
      (c in res.returning ==> res.returning[c] == Get(res.rows[|data|], c))
  {
  }

}
