/**
 * `executeSELECTQuery` between loading the tables and returning the answer:
 * join, filter, and then one of three shapes. A whole-table aggregate gives one
 * row. GROUP BY gives its groups, sorted and limited. Otherwise the rows are
 * sorted, then counted by distinct key, or projected, de-duplicated and limited.
 */
module Select {
  import opened Wrappers
  import opened JsText
  import opened JsValues
  import opened Seqs
  import opened Keyed
  import opened Condition
  import opened Joins
  import opened Aggregates
  import opened GroupBy
  import opened Ordering

  /** The separator of DISTINCT and COUNT(DISTINCT ...) keys. */
  const Bar := "|"

  /** The parsed SELECT statement. Absent parts are None; an absent join table is None or "". */
  datatype Query = Query(
    fields: seq<string>,
    table: string,
    whereClauses: seq<Clause>,
    joinType: string,
    joinTable: Option<string>,
    joinCondition: Option<JoinCondition>,
    groupByFields: Option<seq<string>>,
    hasAggregateWithoutGroupBy: bool,
    isApproximateCount: bool,
    orderByFields: Option<seq<OrderField>>,
    limit: Option<int>,
    isDistinct: bool,
    distinctFields: seq<string>,
    isCountDistinct: bool)

  /**
   * What a SELECT returns. The two approximate counts are handed to a
   * cardinality sketch whose estimate is not modelled: the count of a whole
   * table, and the items inserted into a fresh sketch under a column name.
   */
  datatype Answer =
    | Rows(rows: seq<Row>)
    | TableEstimate(table: string)
    | SketchEstimate(column: string, items: seq<string>)

  /** `APPROXIMATE_COUNT(*)` with nothing else and no WHERE: answered from the table file alone. */
  predicate FastCount(q: Query) {
    q.isApproximateCount && q.fields == ["COUNT(*)"] && |q.whereClauses| == 0
  }

  /** `joinTable && joinCondition`. */
  predicate JoinRequested(q: Query) {
    q.joinTable.Some? && q.joinTable.value != "" && q.joinCondition.Some?
  }

  predicate KnownJoinType(joinType: string) {
    Upper(joinType) in {"INNER", "LEFT", "RIGHT"}
  }

  /** The `switch (joinType.toUpperCase())` over the loaded main and join tables. */
  function Joined(q: Query, data: seq<Row>, joinData: seq<Row>): (r: Result<seq<Row>, Error>)
    ensures !JoinRequested(q) ==> r == Ok(data)
    ensures r.Failure? <==> JoinRequested(q) && !KnownJoinType(q.joinType)
    ensures r.Failure? ==> r.error == UnsupportedJoinType(q.joinType)
  {
    if JoinRequested(q) then
      var cond := q.joinCondition.value;
      var t := Upper(q.joinType);
      if t == "INNER" then Ok(InnerJoin(data, joinData, cond, q.fields, q.table))
      else if t == "LEFT" then Ok(LeftJoin(data, joinData, cond, q.fields, q.table))
      else if t == "RIGHT" then Ok(RightJoin(data, joinData, cond, q.fields, q.table))
      else Failure(UnsupportedJoinType(q.joinType))
    else Ok(data)
  }

  /** The joined rows, filtered by the WHERE clauses when there are any. */
  function Filtered(q: Query, data: seq<Row>, joinData: seq<Row>): Result<seq<Row>, Error> {
    match Joined(q, data, joinData)
    case Failure(e) => Failure(e)
    case Ok(rows) => if |q.whereClauses| > 0 then FilterBy(rows, q.whereClauses, true) else Ok(rows)
  }

  /** `selectedRow[field] = row[field]` for every field: a missing one is present as `undefined`. */
  function Project(rows: seq<Row>, fields: seq<string>): (r: seq<Row>)
    ensures |r| == |rows|
    ensures forall i :: 0 <= i < |rows| ==> r[i].Keys == set f | f in fields
    ensures forall i, f :: 0 <= i < |rows| && f in fields ==> r[i][f] == Get(rows[i], f)
  {
    seq(|rows|, i requires 0 <= i < |rows| => map f | f in fields :: Get(rows[i], f))
  }

  /** Projecting onto some of the projected fields is projecting onto them directly. */
  lemma ProjectNarrowing(rows: seq<Row>, wide: seq<string>, narrow: seq<string>)
    requires forall f :: f in narrow ==> f in wide
    ensures Project(Project(rows, wide), narrow) == Project(rows, narrow)
  {
    var once := Project(rows, wide);
    forall i | 0 <= i < |rows|
      ensures Project(once, narrow)[i] == Project(rows, narrow)[i]
    {
      assert forall f :: f in narrow ==> Project(once, narrow)[i][f] == once[i][f] == Get(rows[i], f);
    }
  }

  /**
   * `[...new Map(rows.map(r => [key(r), r])).values()]`: one row per distinct
   * key, keys in order of first appearance, each holding the last row with that key.
   */
  function Deduplicated(rows: seq<Row>, fields: seq<string>): (r: seq<Row>)
    ensures |r| == |DistinctKeys(rows, fields, Bar)|
  {
    var ks := DistinctKeys(rows, fields, Bar);
    seq(|ks|, i requires 0 <= i < |ks| => assert ks[i] in ks; LastWithKey(rows, fields, Bar, ks[i]))
  }

  /** `rows.slice(0, end)`: a negative end counts back from the length. */
  function Slice(rows: seq<Row>, end: int): (r: seq<Row>)
    ensures end >= 0 ==> |r| == if end < |rows| then end else |rows|
    ensures end < 0 ==> |r| == if |rows| + end > 0 then |rows| + end else 0
    ensures r == rows[..|r|]
  {
    var n := if end < 0 then (if |rows| + end > 0 then |rows| + end else 0)
             else if end < |rows| then end else |rows|;
    rows[..n]
  }

  function Limited(rows: seq<Row>, limit: Option<int>): seq<Row> {
    match limit
    case None => rows
    case Some(n) => Slice(rows, n)
  }

  /** `fields[0]` as a property name: `undefined` when there is no field. */
  function FirstName(fields: seq<string>): string {
    if fields == [] then "undefined" else fields[0]
  }

  /** The row shapes after the filter. */
  function Shape(q: Query, filtered: seq<Row>): Answer {
    if q.hasAggregateWithoutGroupBy then Rows([AggregateRow(filtered, q.fields)])
    else if q.groupByFields.Some? then
      Rows(Limited(Ordered(GroupRows(filtered, q.groupByFields.value, q.fields), q.orderByFields), q.limit))
    else
      var ordered := Ordered(filtered, q.orderByFields);
      if q.isCountDistinct then
        if q.isApproximateCount then SketchEstimate("APPROXIMATE_" + FirstName(q.fields), KeysOf(ordered, q.distinctFields, Bar))
        else Rows([map[FirstName(q.fields) := Num(Finite(|Deduplicated(ordered, q.distinctFields)|))]])
      else
        Rows(Limited(Unlimited(q, filtered), q.limit))
  }

  /** The projected rows, deduplicated under DISTINCT, before LIMIT applies. */
  function Unlimited(q: Query, filtered: seq<Row>): seq<Row> {
    var projected := Project(Ordered(filtered, q.orderByFields), q.fields);
    if q.isDistinct then Deduplicated(projected, q.fields) else projected
  }

  /** The answer to a SELECT over the loaded tables; every error is re-raised as a query-execution error. */
  function Select(q: Query, data: seq<Row>, joinData: seq<Row>): Result<Answer, Error> {
    if FastCount(q) then Ok(TableEstimate(q.table))
    else
      match Filtered(q, data, joinData)
      case Failure(e) => Failure(QueryExecution(e))
      case Ok(filtered) => Ok(Shape(q, filtered))
  }

  // ---- The insertion-ordered Map ----

  /** The Map and its key order hold, for every key of `rows`, the last row with it. */
  ghost predicate MapHolds(m: map<string, Row>, order: seq<string>, rows: seq<Row>, fields: seq<string>) {
    && order == DistinctKeys(rows, fields, Bar)
    && (forall k :: k in m <==> k in order)
    && (forall k :: k in m ==> k in KeysOf(rows, fields, Bar) && m[k] == LastWithKey(rows, fields, Bar, k))
  }

  /** `map.set(key(row), row)` keeps the description. */
  lemma MapHoldsStep(m: map<string, Row>, order: seq<string>, rows: seq<Row>, row: Row, fields: seq<string>)
    requires MapHolds(m, order, rows, fields)
    ensures var key := RowKey(row, fields, Bar);
      MapHolds(m[key := row], if key in m then order else order + [key], rows + [row], fields)
  {
    var key := RowKey(row, fields, Bar);
    var order' := if key in m then order else order + [key];
    var m' := m[key := row];
    assert order' == DistinctKeys(rows + [row], fields, Bar) by {
      DistinctKeysStep(rows, row, fields, Bar);
    }
    MapDomainStep(m, order, key, row, m', order');
    MapValuesStep(m, rows, row, fields);
  }

  /** After `map.set`, every key holds the last row with it among the extended rows. */
  lemma MapValuesStep(m: map<string, Row>, rows: seq<Row>, row: Row, fields: seq<string>)
    requires forall k :: k in m ==> k in KeysOf(rows, fields, Bar) && m[k] == LastWithKey(rows, fields, Bar, k)
    ensures var m' := m[RowKey(row, fields, Bar) := row];
      forall k :: k in m' ==> k in KeysOf(rows + [row], fields, Bar) && m'[k] == LastWithKey(rows + [row], fields, Bar, k)
  {
    var key := RowKey(row, fields, Bar);
    var m' := m[key := row];
    assert KeysOf(rows + [row], fields, Bar) == KeysOf(rows, fields, Bar) + [key];
    forall k | k in m'
      ensures k in KeysOf(rows + [row], fields, Bar)
      ensures m'[k] == LastWithKey(rows + [row], fields, Bar, k)
    {
      LastWithKeyStep(rows, row, fields, Bar, k);
      if k == key {
        assert m'[k] == row;
      } else {
        assert m'[k] == m[k];
      }
    }
  }

  /** `new Map(rows.map(r => [key(r), r]))`: set row by row, a repeated key keeps its place and takes the later row. */
  method BuildMap(rows: seq<Row>, fields: seq<string>) returns (m: map<string, Row>, order: seq<string>)
    ensures MapHolds(m, order, rows, fields)
  {
    m := map[];
    order := [];
    for i := 0 to |rows|
      invariant MapHolds(m, order, rows[..i], fields)
    {
      m, order := SetEntry(m, order, rows[..i], rows[i], fields);
      assert rows[..i + 1] == rows[..i] + [rows[i]];
    }
    assert rows[..|rows|] == rows;
  }

  /** `map.set(key(row), row)`. */
  method SetEntry(m0: map<string, Row>, order0: seq<string>, ghost rows: seq<Row>, row: Row, fields: seq<string>)
    returns (m: map<string, Row>, order: seq<string>)
    requires MapHolds(m0, order0, rows, fields)
    ensures MapHolds(m, order, rows + [row], fields)
  {
    MapHoldsStep(m0, order0, rows, row, fields);
    var key := RowKey(row, fields, Bar);
    order := if key in m0 then order0 else order0 + [key];
    m := m0[key := row];
  }

  /** The value under the `j`-th inserted key is the `j`-th de-duplicated row. */
  lemma ReadOutStep(m: map<string, Row>, order: seq<string>, rows: seq<Row>, fields: seq<string>, j: nat)
    requires MapHolds(m, order, rows, fields) && j < |order|
    ensures order[j] in m && |Deduplicated(rows, fields)| == |order|
    ensures Deduplicated(rows, fields)[..j + 1] == Deduplicated(rows, fields)[..j] + [m[order[j]]]
  {
    var all := Deduplicated(rows, fields);
    assert order[j] in order;
    PrefixExtend(all, j);
  }

  /** `[...map.values()]`: the rows in key insertion order. */
  method ReadOut(m: map<string, Row>, order: seq<string>, ghost rows: seq<Row>, fields: seq<string>) returns (result: seq<Row>)
    requires MapHolds(m, order, rows, fields)
    ensures result == Deduplicated(rows, fields)
  {
    ghost var all := Deduplicated(rows, fields);
    assert |all| == |order|;
    result := [];
    for j := 0 to |order|
      invariant result == all[..j]
    {
      ReadOutStep(m, order, rows, fields, j);
      result := result + [m[order[j]]];
    }
    assert all[..|order|] == all;
  }

  /** The Map of DISTINCT and COUNT(DISTINCT ...), built row by row and read out in insertion order. */
  method Deduplicate(rows: seq<Row>, fields: seq<string>) returns (result: seq<Row>)
    ensures result == Deduplicated(rows, fields)
  {
    var m, order := BuildMap(rows, fields);
    result := ReadOut(m, order, rows, fields);
  }

  /** The SELECT pipeline, running the group-by pass and the Map as the engine does. */
  method ExecuteSelect(q: Query, data: seq<Row>, joinData: seq<Row>) returns (r: Result<Answer, Error>)
    ensures r == Select(q, data, joinData)
  {
    if FastCount(q) {
      return Ok(TableEstimate(q.table));
    }
    var filtered := Filtered(q, data, joinData);
    if filtered.Failure? {
      return Failure(QueryExecution(filtered.error));
    }
    var rows := filtered.value;
    if q.hasAggregateWithoutGroupBy {
      return Ok(Rows([AggregateRow(rows, q.fields)]));
    }
    if q.groupByFields.Some? {
      var groups := ApplyGroupBy(rows, q.groupByFields.value, q.fields);
      return Ok(Rows(Limited(Ordered(groups, q.orderByFields), q.limit)));
    }
    var ordered := Ordered(rows, q.orderByFields);
    if q.isCountDistinct {
      if q.isApproximateCount {
        return Ok(SketchEstimate("APPROXIMATE_" + FirstName(q.fields), KeysOf(ordered, q.distinctFields, Bar)));
      }
      var unique := Deduplicate(ordered, q.distinctFields);
      return Ok(Rows([map[FirstName(q.fields) := Num(Finite(|unique|))]]));
    }
    var projected := Project(ordered, q.fields);
    var kept := projected;
    if q.isDistinct {
      kept := Deduplicate(projected, q.fields);
    }
    return Ok(Rows(Limited(kept, q.limit)));
  }

  // ---- Properties ----

  /** DISTINCT leaves no two rows with the same key. */
  lemma DeduplicatedUnique(rows: seq<Row>, fields: seq<string>, i: nat, j: nat)
    requires i < j < |Deduplicated(rows, fields)|
    ensures RowKey(Deduplicated(rows, fields)[i], fields, Bar) != RowKey(Deduplicated(rows, fields)[j], fields, Bar)
  {
    var ks := DistinctKeys(rows, fields, Bar);
    assert ks[i] in ks && ks[j] in ks;
  }

  /** Every kept row is one of the input rows, and every input row's key is kept. */
  lemma DeduplicatedCovers(rows: seq<Row>, fields: seq<string>, x: Row)
    ensures x in Deduplicated(rows, fields) ==> x in rows
    ensures x in rows ==>
      exists i :: 0 <= i < |Deduplicated(rows, fields)| && RowKey(Deduplicated(rows, fields)[i], fields, Bar) == RowKey(x, fields, Bar)
  {
    var ks := DistinctKeys(rows, fields, Bar);
    var r := Deduplicated(rows, fields);
    if x in r {
      var i :| 0 <= i < |r| && r[i] == x;
      assert ks[i] in ks;
    }
    if x in rows {
      var p :| 0 <= p < |rows| && rows[p] == x;
      var key := KeysOf(rows, fields, Bar)[p];
      assert key in ks;
      var i :| 0 <= i < |ks| && ks[i] == key;
      assert RowKey(r[i], fields, Bar) == key;
    }
  }

  /** The number of de-duplicated rows is the number of distinct keys. */
  lemma DeduplicatedCount(rows: seq<Row>, fields: seq<string>)
    ensures |Deduplicated(rows, fields)| == |set r | r in rows :: RowKey(r, fields, Bar)|
  {
    FirstAppearancesCount(KeysOf(rows, fields, Bar));
    KeySet(rows, fields, Bar);
  }

  /** The rows that reach the answer are the joined rows for which every clause holds, in order. */
  lemma FilterKeepsMatchingRows(q: Query, data: seq<Row>, joinData: seq<Row>)
    requires Filtered(q, data, joinData).Ok?
    ensures var joined := Joined(q, data, joinData).value;
      var rows := Filtered(q, data, joinData).value;
      IsSubsequence(rows, joined) &&
      (forall x :: x in rows <==> x in joined && EvaluateAll(x, q.whereClauses) == Ok(true)) &&
      forall x :: multiset(rows)[x] == if EvaluateAll(x, q.whereClauses) == Ok(true) then multiset(joined)[x] else 0
  {
    var joined := Joined(q, data, joinData).value;
    if |q.whereClauses| == 0 {
      SubsequenceReflexive(joined);
      assert forall x :: EvaluateAll(x, q.whereClauses) == Ok(true);
    } else {
      var outcomes := RowOutcomes(joined, q.whereClauses);
      var rows := FilterOutcomes(joined, outcomes, true).value;
      KeptCountByClauses(joined, q.whereClauses, true);
      forall x
        ensures x in rows <==> x in joined && EvaluateAll(x, q.whereClauses) == Ok(true)
      {
        if x in joined && EvaluateAll(x, q.whereClauses) == Ok(true) {
          var i :| 0 <= i < |joined| && joined[i] == x;
          assert outcomes[i] == Ok(true);
        }
      }
    }
  }

  /** COUNT(*) without GROUP BY: one row, holding the number of rows that passed the filter. */
  lemma AggregateAnswer(q: Query, data: seq<Row>, joinData: seq<Row>, arg: string)
    requires !FastCount(q) && q.hasAggregateWithoutGroupBy && Filtered(q, data, joinData).Ok?
    requires IsWord(arg) || arg == "*"
    requires "COUNT(" + arg + ")" in q.fields
    ensures var a := Select(q, data, joinData);
      a.Ok? && a.value.Rows? && |a.value.rows| == 1 &&
      "COUNT(" + arg + ")" in a.value.rows[0] &&
      a.value.rows[0]["COUNT(" + arg + ")"] == Num(Finite(|Filtered(q, data, joinData).value|))
  {
    AggregateCount(Filtered(q, data, joinData).value, q.fields, arg);
  }

  /**
   * GROUP BY without LIMIT: one row per distinct group key of the filtered rows,
   * the group-by's rows rearranged by ORDER BY and left in first-appearance order without it.
   */
  lemma GroupedAnswer(q: Query, data: seq<Row>, joinData: seq<Row>)
    requires !FastCount(q) && !q.hasAggregateWithoutGroupBy && q.groupByFields.Some?
    requires q.limit.None? && Filtered(q, data, joinData).Ok?
    ensures var rows := Filtered(q, data, joinData).value;
      var groups := GroupRows(rows, q.groupByFields.value, q.fields);
      var a := Select(q, data, joinData);
      a.Ok? && a.value.Rows? &&
      multiset(a.value.rows) == multiset(groups) &&
      |a.value.rows| == |set r | r in rows :: RowKey(r, q.groupByFields.value, Hyphen)| &&
      (q.orderByFields.None? ==> a.value.rows == groups)
  {
    var rows := Filtered(q, data, joinData).value;
    var groups := GroupRows(rows, q.groupByFields.value, q.fields);
    GroupRowsCount(rows, q.groupByFields.value, q.fields);
    if q.orderByFields.Some? {
      SortPermutes(groups, q.orderByFields.value);
    }
  }

  /** Exact COUNT(DISTINCT ...): one row holding the number of distinct keys among the filtered rows; ORDER BY does not change it. */
  lemma CountDistinctAnswer(q: Query, data: seq<Row>, joinData: seq<Row>)
    requires !FastCount(q) && !q.hasAggregateWithoutGroupBy && q.groupByFields.None?
    requires q.isCountDistinct && !q.isApproximateCount && Filtered(q, data, joinData).Ok?
    ensures var rows := Filtered(q, data, joinData).value;
      Select(q, data, joinData) ==
        Ok(Rows([map[FirstName(q.fields) := Num(Finite(|set r | r in rows :: RowKey(r, q.distinctFields, Bar)|))]]))
  {
    var rows := Filtered(q, data, joinData).value;
    var ordered := Ordered(rows, q.orderByFields);
    assert Select(q, data, joinData) ==
      Ok(Rows([map[FirstName(q.fields) := Num(Finite(|Deduplicated(ordered, q.distinctFields)|))]]));
    DeduplicatedCount(ordered, q.distinctFields);
    OrderedKeySet(rows, q.orderByFields, q.distinctFields);
  }

  /** ORDER BY leaves the set of keys of the rows as it is. */
  lemma OrderedKeySet(rows: seq<Row>, keys: Option<seq<OrderField>>, fields: seq<string>)
    ensures (set r | r in Ordered(rows, keys) :: RowKey(r, fields, Bar)) == (set r | r in rows :: RowKey(r, fields, Bar))
  {
    if keys.Some? {
      var ordered := Ordered(rows, keys);
      SortPermutes(rows, keys.value);
      assert forall r :: r in ordered <==> r in multiset(ordered);
      assert forall r :: r in rows <==> r in multiset(rows);
    }
  }

  /** With DISTINCT, no two answered rows have the same `|`-joined projected key, LIMIT or not. */
  lemma DistinctAnswer(q: Query, data: seq<Row>, joinData: seq<Row>, i: nat, j: nat)
    requires !FastCount(q) && !q.hasAggregateWithoutGroupBy && q.groupByFields.None?
    requires !q.isCountDistinct && q.isDistinct && Filtered(q, data, joinData).Ok?
    ensures var a := Select(q, data, joinData);
      a.Ok? && a.value.Rows? &&
      (i < j < |a.value.rows| ==> RowKey(a.value.rows[i], q.fields, Bar) != RowKey(a.value.rows[j], q.fields, Bar))
  {
    var rows := Filtered(q, data, joinData).value;
    var projected := Project(Ordered(rows, q.orderByFields), q.fields);
    var unique := Deduplicated(projected, q.fields);
    PlainSelect(q, data, joinData);
    assert Unlimited(q, rows) == unique;
    var answered := Limited(unique, q.limit);
    assert answered == unique[..|answered|];
    if i < j < |answered| {
      DeduplicatedUnique(projected, q.fields, i, j);
    }
  }

  /** LIMIT n, for n at least 0: the first min(n, m) of the m rows before the limit. */
  lemma LimitAnswer(q: Query, data: seq<Row>, joinData: seq<Row>, n: int)
    requires !FastCount(q) && !q.hasAggregateWithoutGroupBy && q.groupByFields.None?
    requires !q.isCountDistinct && q.limit == Some(n) && n >= 0 && Filtered(q, data, joinData).Ok?
    ensures var q' := q.(limit := None);
      var a := Select(q, data, joinData);
      var whole := Select(q', data, joinData);
      a.Ok? && a.value.Rows? && whole.Ok? && whole.value.Rows? &&
      a.value.rows == whole.value.rows[..if n < |whole.value.rows| then n else |whole.value.rows|]
  {
    var q' := q.(limit := None);
    FilteredIgnoresLimit(q, data, joinData, None);
    PlainSelect(q, data, joinData);
    PlainSelect(q', data, joinData);
    assert Unlimited(q', Filtered(q, data, joinData).value) == Unlimited(q, Filtered(q, data, joinData).value);
  }

  /** A query without aggregates, grouping or COUNT(DISTINCT ...) answers the limited pre-limit rows. */
  lemma PlainSelect(q: Query, data: seq<Row>, joinData: seq<Row>)
    requires !FastCount(q) && !q.hasAggregateWithoutGroupBy && q.groupByFields.None?
    requires !q.isCountDistinct && Filtered(q, data, joinData).Ok?
    ensures Select(q, data, joinData) == Ok(Rows(Limited(Unlimited(q, Filtered(q, data, joinData).value), q.limit)))
  {
  }

  /** LIMIT plays no part in joining and filtering. */
  lemma FilteredIgnoresLimit(q: Query, data: seq<Row>, joinData: seq<Row>, limit: Option<int>)
    ensures Filtered(q.(limit := limit), data, joinData) == Filtered(q, data, joinData)
  {
    assert Joined(q.(limit := limit), data, joinData) == Joined(q, data, joinData);
  }

  /** An unknown join type is raised, wrapped as a query-execution error. */
  lemma UnknownJoinTypeRaised(q: Query, data: seq<Row>, joinData: seq<Row>)
    requires !FastCount(q) && JoinRequested(q) && !KnownJoinType(q.joinType)
    ensures Select(q, data, joinData) == Failure(QueryExecution(UnsupportedJoinType(q.joinType)))
  {
  }

  /** A WHERE clause with an unknown operator is raised, wrapped, once there is a row to test. */
  lemma UnknownOperatorRaised(q: Query, data: seq<Row>, joinData: seq<Row>, field: string, op: string, lit: string)
    requires !FastCount(q) && !JoinRequested(q) && data != []
    requires q.whereClauses == [Clause(field, op, lit)] && !IsSupported(op)
    ensures Select(q, data, joinData) == Failure(QueryExecution(UnsupportedOperator(op)))
  {
    var c := [Clause(field, op, lit)];
    assert Outcomes(data[0], c)[0] == Failure(UnsupportedOperator(op));
    assert forall i :: 0 <= i < |data| ==> EvaluateAll(data[i], c) == Failure(UnsupportedOperator(op));
  }

  /** The approximate COUNT(*) fast path reads neither the join nor the filter. */
  lemma FastCountAnswer(q: Query, data: seq<Row>, joinData: seq<Row>)
    requires FastCount(q)
    ensures Select(q, data, joinData) == Ok(TableEstimate(q.table))
  {
  }
}
