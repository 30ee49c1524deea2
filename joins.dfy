/**
 * INNER, LEFT and RIGHT joins of a main table with a join table, and the
 * construction of each output row from the projected field list.
 */
module Joins {
  import opened Wrappers
  import opened JsText
  import opened JsValues
  import opened Seqs

  /** `joinCondition`: `left` names a field of the main table, `right` one of the join table, both as `table.field`. */
  datatype JoinCondition = JoinCondition(left: string, right: string)

  // ---- INNER ----

  /** The key `compound.split(".")[1]` reads: the second part, or "undefined" when there is none. */
  function SecondKey(compound: string): string {
    KeyText(SecondPart(compound))
  }

  /** INNER compares the raw values under the second parts of the two condition names with `===`. */
  predicate InnerMatch(mainRow: Row, joinRow: Row, cond: JoinCondition) {
    StrictEquals(Get(mainRow, SecondKey(cond.left)), Get(joinRow, SecondKey(cond.right)))
  }

  /** One projected field of an INNER row: from the main row iff the field's first part is the main table's name. */
  function InnerField(mainRow: Row, joinRow: Row, field: string, table: string): Value {
    if FirstPart(field) == table then Get(mainRow, SecondKey(field)) else Get(joinRow, SecondKey(field))
  }

  /** The `fields.reduce(...)` that builds one INNER output row. */
  function InnerRow(mainRow: Row, joinRow: Row, fields: seq<string>, table: string): Row {
    map f | f in fields :: InnerField(mainRow, joinRow, f, table)
  }

  /** The join rows matching one main row, projected, in join-table order. */
  function InnerMatches(mainRow: Row, joinData: seq<Row>, cond: JoinCondition, fields: seq<string>, table: string): seq<Row>
  {
    if joinData == [] then []
    else
      var rest := InnerMatches(mainRow, joinData[1..], cond, fields, table);
      if InnerMatch(mainRow, joinData[0], cond) then [InnerRow(mainRow, joinData[0], fields, table)] + rest else rest
  }

  /** `performInnerJoin`: a flatMap over the main rows. */
  function InnerJoin(data: seq<Row>, joinData: seq<Row>, cond: JoinCondition, fields: seq<string>, table: string): seq<Row>
  {
    if data == [] then []
    else InnerMatches(data[0], joinData, cond, fields, table) + InnerJoin(data[1..], joinData, cond, fields, table)
  }

  /** Number of join rows that INNER pairs with one main row. */
  function InnerCount(mainRow: Row, joinData: seq<Row>, cond: JoinCondition): nat {
    if joinData == [] then 0
    else (if InnerMatch(mainRow, joinData[0], cond) then 1 else 0) + InnerCount(mainRow, joinData[1..], cond)
  }

  /** Sum over the main rows of their INNER match counts. */
  function InnerTotal(data: seq<Row>, joinData: seq<Row>, cond: JoinCondition): nat {
    if data == [] then 0 else InnerCount(data[0], joinData, cond) + InnerTotal(data[1..], joinData, cond)
  }

  // ---- LEFT and RIGHT ----

  /** `getValueFromRow`: the value under `table.field` when it is truthy, otherwise the value under `field`. */
  function GetValueFromRow(row: Row, compound: string): (v: Value)
    ensures Truthy(Get(row, FirstPart(compound) + "." + SecondKey(compound))) ==>
      v == Get(row, FirstPart(compound) + "." + SecondKey(compound))
    ensures !Truthy(Get(row, FirstPart(compound) + "." + SecondKey(compound))) ==> v == Get(row, SecondKey(compound))
  {
    Or(Get(row, FirstPart(compound) + "." + SecondKey(compound)), Get(row, SecondKey(compound)))
  }

  /** LEFT and RIGHT compare the values `getValueFromRow` reads with `===`. */
  predicate OuterMatch(mainRow: Row, joinRow: Row, cond: JoinCondition) {
    StrictEquals(GetValueFromRow(mainRow, cond.left), GetValueFromRow(joinRow, cond.right))
  }

  /** Number of join rows that LEFT and RIGHT consider matching one main row. */
  function OuterCount(mainRow: Row, joinData: seq<Row>, cond: JoinCondition): nat {
    if joinData == [] then 0
    else (if OuterMatch(mainRow, joinData[0], cond) then 1 else 0) + OuterCount(mainRow, joinData[1..], cond)
  }

  /**
   * The join rows matching one main row, in join-table order, each as often
   * as it occurs in the join table.
   */
  function OuterMatches(mainRow: Row, joinData: seq<Row>, cond: JoinCondition): (r: seq<Row>)
    ensures IsSubsequence(r, joinData)
    ensures |r| == OuterCount(mainRow, joinData, cond)
    ensures forall x :: x in r ==> x in joinData && OuterMatch(mainRow, x, cond)
    ensures forall x :: x in joinData && OuterMatch(mainRow, x, cond) ==> x in r
    ensures forall x :: multiset(r)[x] == if OuterMatch(mainRow, x, cond) then multiset(joinData)[x] else 0
  {
    if joinData == [] then []
    else
      var rest := OuterMatches(mainRow, joinData[1..], cond);
      var take := OuterMatch(mainRow, joinData[0], cond);
      assert joinData == [joinData[0]] + joinData[1..];
      SubsequencePrepend(rest, joinData[1..], joinData[0], take);
      FilterPrepend(rest, joinData[1..], joinData[0], x => OuterMatch(mainRow, x, cond));
      if take then [joinData[0]] + rest else rest
  }

  /** The main-row entries `table.key` that `createResultRow` writes first. */
  function Prefixed(mainRow: Option<Row>, table: string, includeAllMainFields: bool): Row {
    if includeAllMainFields && mainRow.Some? then PrefixedPart(mainRow.value, table, mainRow.value.Keys)
    else map[]
  }

  lemma PrefixInjective(table: string)
    ensures forall k1: string, k2: string {:trigger table + "." + k1, table + "." + k2} ::
      table + "." + k1 == table + "." + k2 ==> k1 == k2
  {
    forall k1: string, k2: string | table + "." + k1 == table + "." + k2
      ensures k1 == k2
    {
      assert k1 == (table + "." + k1)[|table| + 1..];
      assert k2 == (table + "." + k2)[|table| + 1..];
    }
  }

  /** Which table and field a projected name refers to: an unqualified name belongs to the main table. */
  function FieldTarget(field: string, table: string): (string, string) {
    if '.' in field then (FirstPart(field), SecondKey(field)) else (table, field)
  }

  /** The value `createResultRow` writes for one projected field. */
  function ProjectedValue(mainRow: Option<Row>, joinRow: Option<Row>, field: string, table: string): Value {
    var (tableName, fieldName) := FieldTarget(field, table);
    if tableName == table && mainRow.Some? then Get(mainRow.value, fieldName)
    else if joinRow.Some? then Get(joinRow.value, fieldName)
    else Null
  }

  /** The row `createResultRow` builds: prefixed main-row entries, overridden by the projected fields. */
  function ResultRow(mainRow: Option<Row>, joinRow: Option<Row>, fields: seq<string>, table: string, includeAllMainFields: bool): Row {
    Prefixed(mainRow, table, includeAllMainFields) + ProjectedPart(mainRow, joinRow, fields, table)
  }

  /** The output rows of LEFT for one main row: one per match, or one with no join row. */
  function LeftRows(mainRow: Row, matches: seq<Row>, fields: seq<string>, table: string): (r: seq<Row>)
    ensures matches == [] ==> r == [ResultRow(Some(mainRow), None, fields, table, true)]
    ensures matches != [] ==> |r| == |matches|
    ensures matches != [] ==>
      forall j :: 0 <= j < |matches| ==> r[j] == ResultRow(Some(mainRow), Some(matches[j]), fields, table, true)
  {
    if matches == [] then [ResultRow(Some(mainRow), None, fields, table, true)]
    else seq(|matches|, j requires 0 <= j < |matches| => ResultRow(Some(mainRow), Some(matches[j]), fields, table, true))
  }

  /** `performLeftJoin`: a flatMap over the main rows. */
  function LeftJoin(data: seq<Row>, joinData: seq<Row>, cond: JoinCondition, fields: seq<string>, table: string): seq<Row>
  {
    if data == [] then []
    else LeftRows(data[0], OuterMatches(data[0], joinData, cond), fields, table) + LeftJoin(data[1..], joinData, cond, fields, table)
  }

  /** Sum over the main rows of max(1, number of matches). */
  function LeftTotal(data: seq<Row>, joinData: seq<Row>, cond: JoinCondition): nat {
    if data == [] then 0
    else
      var n := OuterCount(data[0], joinData, cond);
      (if n == 0 then 1 else n) + LeftTotal(data[1..], joinData, cond)
  }

  /** Index of the first true flag. */
  function FirstTrue(flags: seq<bool>): (r: Option<nat>)
    ensures r.None? <==> forall k :: 0 <= k < |flags| ==> !flags[k]
    ensures r.Some? ==> r.value < |flags| && flags[r.value] && forall j :: 0 <= j < r.value ==> !flags[j]
  {
    if flags == [] then None
    else if flags[0] then Some(0)
    else
      match FirstTrue(flags[1..])
      case None => None
      case Some(k) => Some(k + 1)
  }

  /** Which main rows match the join row, in main-table order. */
  function MatchFlags(data: seq<Row>, joinRow: Row, cond: JoinCondition): (r: seq<bool>)
    ensures |r| == |data| && forall k :: 0 <= k < |data| ==> r[k] == OuterMatch(data[k], joinRow, cond)
  {
    seq(|data|, k requires 0 <= k < |data| => OuterMatch(data[k], joinRow, cond))
  }

  /** `data.find(...)`: the first main row that matches the join row. */
  function FindFirst(data: seq<Row>, joinRow: Row, cond: JoinCondition): Option<Row> {
    match FirstTrue(MatchFlags(data, joinRow, cond))
    case Some(k) => Some(data[k])
    case None => None
  }

  /** The stand-in for a missing main row: keys of the first main row, all null; `{}` for an empty main table. */
  function StandIn(data: seq<Row>): (r: Row)
    ensures data != [] ==> r.Keys == data[0].Keys && forall k :: k in r ==> r[k] == Null
    ensures data == [] ==> r == map[]
  {
    if |data| > 0 then map k | k in data[0].Keys :: Null else map[]
  }

  /** `performRightJoin`: one output row per join row, from the first matching main row or the stand-in. */
  function RightJoin(data: seq<Row>, joinData: seq<Row>, cond: JoinCondition, fields: seq<string>, table: string): seq<Row>
  {
    seq(|joinData|, i requires 0 <= i < |joinData| =>
      var mainRow := match FindFirst(data, joinData[i], cond) case Some(m) => m case None => StandIn(data);
      ResultRow(Some(mainRow), Some(joinData[i]), fields, table, true))
  }

  // ---- createResultRow ----

  /** The main-row entries written for the keys in `done`. */
  function PrefixedPart(m: Row, table: string, done: set<string>): Row
    requires done <= m.Keys
  {
    PrefixInjective(table);
    map key | key in done :: table + "." + key := m[key]
  }

  lemma PrefixedPartStep(m: Row, table: string, done: set<string>, key: string)
    requires done <= m.Keys && key in m.Keys && key !in done
    ensures PrefixedPart(m, table, done)[table + "." + key := m[key]] == PrefixedPart(m, table, done + {key})
  {
    PrefixInjective(table);
  }

  /** The projected entries written for the fields in `fs`. */
  function ProjectedPart(mainRow: Option<Row>, joinRow: Option<Row>, fs: seq<string>, table: string): Row {
    map f | f in fs :: ProjectedValue(mainRow, joinRow, f, table)
  }

  lemma ProjectedPartStep(base: Row, mainRow: Option<Row>, joinRow: Option<Row>, fs: seq<string>, field: string, table: string)
    ensures (base + ProjectedPart(mainRow, joinRow, fs, table))[field := ProjectedValue(mainRow, joinRow, field, table)]
      == base + ProjectedPart(mainRow, joinRow, fs + [field], table)
  {
    var part := ProjectedPart(mainRow, joinRow, fs, table);
    var part' := ProjectedPart(mainRow, joinRow, fs + [field], table);
    assert forall f :: f in fs + [field] <==> f in fs || f == field;
    OverrideStep(base, part, part', field, ProjectedValue(mainRow, joinRow, field, table));
  }

  /** The first `forEach` of `createResultRow`: writes `table.key` for every key of the main row. */
  method MainFieldEntries(m: Row, table: string) returns (resultRow: Row)
    ensures resultRow == PrefixedPart(m, table, m.Keys)
  {
    resultRow := map[];
    var remaining := m.Keys;
    ghost var done: set<string> := {};
    while remaining != {}
      invariant remaining + done == m.Keys && remaining !! done
      invariant resultRow == PrefixedPart(m, table, done)
      decreases |remaining|
    {
      var key :| key in remaining;
      PrefixedPartStep(m, table, done, key);
      resultRow := resultRow[table + "." + key := m[key]];
      remaining := remaining - {key};
      done := done + {key};
    }
    assert done == m.Keys;
  }

  /** `createResultRow`: the main-row entries first, then the projected fields one by one. */
  method CreateResultRow(mainRow: Option<Row>, joinRow: Option<Row>, fields: seq<string>, table: string, includeAllMainFields: bool)
    returns (resultRow: Row)
    ensures resultRow == ResultRow(mainRow, joinRow, fields, table, includeAllMainFields)
  {
    resultRow := map[];
    if includeAllMainFields && mainRow.Some? {
      resultRow := MainFieldEntries(mainRow.value, table);
    }
    ghost var base := resultRow;
    assert base == Prefixed(mainRow, table, includeAllMainFields);
    assert ProjectedPart(mainRow, joinRow, fields[..0], table) == map[];
    assert base + map[] == base;
    for i := 0 to |fields|
      invariant resultRow == base + ProjectedPart(mainRow, joinRow, fields[..i], table)
    {
      var field := fields[i];
      ProjectedPartStep(base, mainRow, joinRow, fields[..i], field, table);
      resultRow := resultRow[field := ProjectedValue(mainRow, joinRow, field, table)];
      assert fields[..i + 1] == fields[..i] + [field];
    }
    assert fields[..|fields|] == fields;
  }

  // ---- Properties ----

  lemma {:induction false} InnerMatchesCount(mainRow: Row, joinData: seq<Row>, cond: JoinCondition, fields: seq<string>, table: string)
    ensures |InnerMatches(mainRow, joinData, cond, fields, table)| == InnerCount(mainRow, joinData, cond)
  {
    if joinData != [] {
      InnerMatchesCount(mainRow, joinData[1..], cond, fields, table);
    }
  }

  /** INNER emits, for each main row, one row per matching join row and nothing else. */
  lemma {:induction false} InnerJoinSize(data: seq<Row>, joinData: seq<Row>, cond: JoinCondition, fields: seq<string>, table: string)
    ensures |InnerJoin(data, joinData, cond, fields, table)| == InnerTotal(data, joinData, cond)
  {
    if data != [] {
      InnerMatchesCount(data[0], joinData, cond, fields, table);
      InnerJoinSize(data[1..], joinData, cond, fields, table);
    }
  }

  /** INNER output is main-table-major: the rows for the first main rows come first. */
  lemma {:induction false} InnerJoinAppend(d1: seq<Row>, d2: seq<Row>, joinData: seq<Row>, cond: JoinCondition, fields: seq<string>, table: string)
    ensures InnerJoin(d1 + d2, joinData, cond, fields, table) ==
      InnerJoin(d1, joinData, cond, fields, table) + InnerJoin(d2, joinData, cond, fields, table)
  {
    if d1 == [] {
      assert d1 + d2 == d2;
    } else {
      assert (d1 + d2)[0] == d1[0] && (d1 + d2)[1..] == d1[1..] + d2;
      InnerJoinAppend(d1[1..], d2, joinData, cond, fields, table);
    }
  }

  /** Within one main row, INNER output follows the join-table order. */
  lemma {:induction false} InnerMatchesAppend(mainRow: Row, j1: seq<Row>, j2: seq<Row>, cond: JoinCondition, fields: seq<string>, table: string)
    ensures InnerMatches(mainRow, j1 + j2, cond, fields, table) ==
      InnerMatches(mainRow, j1, cond, fields, table) + InnerMatches(mainRow, j2, cond, fields, table)
  {
    if j1 == [] {
      assert j1 + j2 == j2;
    } else {
      assert (j1 + j2)[0] == j1[0] && (j1 + j2)[1..] == j1[1..] + j2;
      InnerMatchesAppend(mainRow, j1[1..], j2, cond, fields, table);
    }
  }

  lemma {:induction false} InnerMatchesMembers(mainRow: Row, joinData: seq<Row>, cond: JoinCondition, fields: seq<string>, table: string, x: Row)
    ensures x in InnerMatches(mainRow, joinData, cond, fields, table) <==>
      exists j :: 0 <= j < |joinData| && InnerMatch(mainRow, joinData[j], cond) && x == InnerRow(mainRow, joinData[j], fields, table)
  {
    if joinData != [] {
      InnerMatchesMembers(mainRow, joinData[1..], cond, fields, table, x);
      assert forall j :: 1 <= j < |joinData| ==> joinData[j] == joinData[1..][j - 1];
      if exists j :: 0 <= j < |joinData| && InnerMatch(mainRow, joinData[j], cond) && x == InnerRow(mainRow, joinData[j], fields, table) {
        var j :| 0 <= j < |joinData| && InnerMatch(mainRow, joinData[j], cond) && x == InnerRow(mainRow, joinData[j], fields, table);
        if j > 0 {
          assert joinData[1..][j - 1] == joinData[j];
        }
      }
    }
  }

  /** Every INNER output row pairs a main row with a join row that matches it, and every such pair is emitted. */
  lemma {:induction false} InnerJoinMembers(data: seq<Row>, joinData: seq<Row>, cond: JoinCondition, fields: seq<string>, table: string, x: Row)
    ensures x in InnerJoin(data, joinData, cond, fields, table) <==>
      exists i, j :: 0 <= i < |data| && 0 <= j < |joinData| && InnerMatch(data[i], joinData[j], cond) &&
        x == InnerRow(data[i], joinData[j], fields, table)
  {
    if data != [] {
      InnerMatchesMembers(data[0], joinData, cond, fields, table, x);
      InnerJoinMembers(data[1..], joinData, cond, fields, table, x);
      assert forall i :: 1 <= i < |data| ==> data[i] == data[1..][i - 1];
      if exists i, j :: (0 <= i < |data| && 0 <= j < |joinData| && InnerMatch(data[i], joinData[j], cond) &&
        x == InnerRow(data[i], joinData[j], fields, table))
      {
        var i, j :| 0 <= i < |data| && 0 <= j < |joinData| && InnerMatch(data[i], joinData[j], cond) &&
          x == InnerRow(data[i], joinData[j], fields, table);
        if i > 0 {
          assert data[1..][i - 1] == data[i];
        }
      }
    }
  }

  /**
   * An INNER row has exactly the projected names as keys; a name `t.f` takes
   * `f` from the main row iff `t` is the main table's name, else from the join row.
   */
  lemma InnerRowQualified(mainRow: Row, joinRow: Row, fields: seq<string>, table: string, t: string, f: string)
    requires '.' !in t && '.' !in f && t + "." + f in fields
    ensures InnerRow(mainRow, joinRow, fields, table).Keys == set x | x in fields
    ensures InnerRow(mainRow, joinRow, fields, table)[t + "." + f] ==
      if t == table then Get(mainRow, f) else Get(joinRow, f)
  {
    SplitQualified(t, f);
  }

  /** An unqualified name in an INNER projection has no second part, so it reads the key "undefined". */
  lemma InnerRowUnqualified(mainRow: Row, joinRow: Row, fields: seq<string>, table: string, name: string)
    requires '.' !in name && name in fields
    ensures InnerRow(mainRow, joinRow, fields, table)[name] ==
      if name == table then Get(mainRow, "undefined") else Get(joinRow, "undefined")
  {
    SplitUnqualified(name);
  }

  /** For a name `t.f`, the value under `t.f` when it is truthy, otherwise the one under `f`. */
  lemma GetValueFromQualified(row: Row, t: string, f: string)
    requires '.' !in t && '.' !in f
    ensures GetValueFromRow(row, t + "." + f) == Or(Get(row, t + "." + f), Get(row, f))
  {
    SplitQualified(t, f);
  }

  /** LEFT emits max(1, number of matches) rows per main row. */
  lemma {:induction false} LeftJoinSize(data: seq<Row>, joinData: seq<Row>, cond: JoinCondition, fields: seq<string>, table: string)
    ensures |LeftJoin(data, joinData, cond, fields, table)| == LeftTotal(data, joinData, cond)
    ensures |LeftJoin(data, joinData, cond, fields, table)| >= |data|
  {
    if data != [] {
      LeftJoinSize(data[1..], joinData, cond, fields, table);
    }
  }

  /** Every main row appears in the LEFT output, paired with a matching join row or with none. */
  lemma LeftJoinCoversMainRows(data: seq<Row>, joinData: seq<Row>, cond: JoinCondition, fields: seq<string>, table: string, i: nat)
    requires i < |data|
    ensures ResultRow(Some(data[i]), None, fields, table, true) in LeftJoin(data, joinData, cond, fields, table) ||
      exists j :: 0 <= j < |joinData| && OuterMatch(data[i], joinData[j], cond) &&
        ResultRow(Some(data[i]), Some(joinData[j]), fields, table, true) in LeftJoin(data, joinData, cond, fields, table)
  {
    LeftJoinContains(data, joinData, cond, fields, table, i);
    var ms := OuterMatches(data[i], joinData, cond);
    var rows := LeftRows(data[i], ms, fields, table);
    assert rows[0] in rows;
    if ms != [] {
      assert ms[0] in joinData;
      var j :| 0 <= j < |joinData| && joinData[j] == ms[0];
      assert rows[0] == ResultRow(Some(data[i]), Some(joinData[j]), fields, table, true);
    }
  }

  /** The rows one main row contributes all appear in the LEFT JOIN output. */
  lemma LeftJoinContains(data: seq<Row>, joinData: seq<Row>, cond: JoinCondition, fields: seq<string>, table: string, i: nat)
    requires i < |data|
    ensures forall x :: x in LeftRows(data[i], OuterMatches(data[i], joinData, cond), fields, table) ==>
      x in LeftJoin(data, joinData, cond, fields, table)
  {
    var blocks := LeftBlocks(data, joinData, cond, fields, table);
    LeftJoinFlatten(data, joinData, cond, fields, table);
    FlattenContains(blocks, i);
  }

  /** The LEFT rows of each main row, in main-table order. */
  function LeftBlocks(data: seq<Row>, joinData: seq<Row>, cond: JoinCondition, fields: seq<string>, table: string): (r: seq<seq<Row>>)
    ensures |r| == |data|
    ensures forall i :: 0 <= i < |data| ==> r[i] == LeftRows(data[i], OuterMatches(data[i], joinData, cond), fields, table)
  {
    seq(|data|, i requires 0 <= i < |data| => LeftRows(data[i], OuterMatches(data[i], joinData, cond), fields, table))
  }

  /** LEFT is the main rows' blocks laid end to end. */
  lemma {:induction false} LeftJoinFlatten(data: seq<Row>, joinData: seq<Row>, cond: JoinCondition, fields: seq<string>, table: string)
    ensures LeftJoin(data, joinData, cond, fields, table) == Flatten(LeftBlocks(data, joinData, cond, fields, table))
  {
    if data != [] {
      var blocks := LeftBlocks(data, joinData, cond, fields, table);
      assert blocks[1..] == LeftBlocks(data[1..], joinData, cond, fields, table);
      LeftJoinFlatten(data[1..], joinData, cond, fields, table);
    }
  }

  /** RIGHT emits exactly one row per join row, in join-table order. */
  lemma RightJoinSize(data: seq<Row>, joinData: seq<Row>, cond: JoinCondition, fields: seq<string>, table: string)
    ensures |RightJoin(data, joinData, cond, fields, table)| == |joinData|
  {
  }

  /**
   * The RIGHT row for join row `i` is built from the first matching main row,
   * or, when none matches, from the all-null stand-in.
   */
  lemma RightJoinRow(data: seq<Row>, joinData: seq<Row>, cond: JoinCondition, fields: seq<string>, table: string, i: nat)
    requires i < |joinData|
    ensures (forall k :: 0 <= k < |data| ==> !OuterMatch(data[k], joinData[i], cond)) ==>
      RightJoin(data, joinData, cond, fields, table)[i] == ResultRow(Some(StandIn(data)), Some(joinData[i]), fields, table, true)
    ensures forall k :: (0 <= k < |data| && OuterMatch(data[k], joinData[i], cond) &&
        (forall j :: 0 <= j < k ==> !OuterMatch(data[j], joinData[i], cond))) ==>
      RightJoin(data, joinData, cond, fields, table)[i] == ResultRow(Some(data[k]), Some(joinData[i]), fields, table, true)
  {
    var flags := MatchFlags(data, joinData[i], cond);
    var found := FindFirst(data, joinData[i], cond);
    var mainRow := match found case Some(m) => m case None => StandIn(data);
    assert RightJoin(data, joinData, cond, fields, table)[i] == ResultRow(Some(mainRow), Some(joinData[i]), fields, table, true);
    match FirstTrue(flags)
    case None =>
      assert found == None;
    case Some(k0) =>
      assert found == Some(data[k0]);
      forall k | 0 <= k < |data| && OuterMatch(data[k], joinData[i], cond) &&
        (forall j :: 0 <= j < k ==> !OuterMatch(data[j], joinData[i], cond))
        ensures k == k0
      {
        assert flags[k];
        assert flags[k0];
      }
  }

  /**
   * `createResultRow`: the keys are `table.key` for every main-row key plus the
   * projected names; a projected name wins over a main-row entry; the other
   * main-row entries keep the main row's values.
   */
  lemma ResultRowShape(mainRow: Row, joinRow: Option<Row>, fields: seq<string>, table: string, key: string)
    requires key in mainRow && table + "." + key !in fields
    ensures ResultRow(Some(mainRow), joinRow, fields, table, true)[table + "." + key] == mainRow[key]
    ensures ResultRow(Some(mainRow), joinRow, fields, table, true).Keys ==
      (set k | k in mainRow.Keys :: table + "." + k) + (set f | f in fields)
  {
    PrefixInjective(table);
    var p := PrefixedPart(mainRow, table, mainRow.Keys);
    assert p[table + "." + key] == mainRow[key];
    assert p.Keys == set k | k in mainRow.Keys :: table + "." + k;
  }

  /**
   * A projected name: an unqualified one is read from the main row; a name
   * qualified by another table is read from the join row, and is null when
   * there is no join row.
   */
  lemma ProjectedFieldSource(mainRow: Row, joinRow: Option<Row>, fields: seq<string>, table: string, field: string)
    requires field in fields
    ensures '.' !in field ==> ResultRow(Some(mainRow), joinRow, fields, table, true)[field] == Get(mainRow, field)
    ensures '.' in field && FirstPart(field) != table ==>
      ResultRow(Some(mainRow), joinRow, fields, table, true)[field] ==
        if joinRow.Some? then Get(joinRow.value, SecondKey(field)) else Null
  {
  }
}
