/**
 * `applyGroupBy`: one pass over the rows keeps, per hyphen-joined group key,
 * a running count and running SUM / MIN / MAX slots per aggregated field;
 * a second pass turns each group into an output row.
 */
module GroupBy {
  import opened Wrappers
  import opened JsText
  import opened JsValues
  import opened Seqs
  import opened Keyed
  import opened Aggregates

  /** The separator of group keys. */
  const Hyphen := "-"

  /** The running state of a group: the group fields of its first row, the count and the slots. */
  datatype Group = Group(
    values: Row,
    count: nat,
    sums: map<string, Number>,
    mins: map<string, Number>,
    maxes: map<string, Number>)

  /** A fresh group, holding the group fields of the row that opened it. */
  function Start(row: Row, groupBy: seq<string>): (g: Group)
    ensures g.count == 0 && g.sums == map[] && g.mins == map[] && g.maxes == map[]
    ensures g.values.Keys == set f | f in groupBy
    ensures forall f :: f in groupBy ==> g.values[f] == Get(row, f)
  {
    Group(map f | f in groupBy :: Get(row, f), 0, map[], map[], map[])
  }

  /**
   * `/(\w+)\((\w+)\)/.exec(func)` for every aggregate function. The running
   * pass matches each function anew for every row; the match depends on the
   * function's text only, so it is the same every time.
   */
  function RunningCalls(funcs: seq<string>): (r: seq<Option<Call>>)
    ensures |r| == |funcs| && forall i :: 0 <= i < |funcs| ==> r[i] == ParseCall(funcs[i], false)
  {
    seq(|funcs|, i requires 0 <= i < |funcs| => ParseCall(funcs[i], false))
  }

  /** `parseFloat(row[field])`: how the running pass reads a row's value. */
  function CellNumber(row: Row, field: string): Number {
    ParseFloat(Get(row, field))
  }

  /**
   * What one aggregate function does to the group for one row, where `read`
   * gives a row's value in a field; a stored slot that is falsy counts as unset.
   * The group-by reads with `CellNumber`; the fold is written for any reader
   * so that the lemmas about it need not look inside `parseFloat`.
   */
  function AddToSlots(g: Group, row: Row, call: Option<Call>, read: (Row, string) -> Number): (r: Group)
    ensures r.values == g.values && r.count == g.count
  {
    match call
    case None => g
    case Some(c) => AddCall(g, c, read(row, c.field))
  }

  /** The `switch (aggFunc.toUpperCase())` of the running pass, given the row's `parseFloat` value. */
  function AddCall(g: Group, c: Call, value: Number): (r: Group)
    ensures r.values == g.values && r.count == g.count
  {
    var f := c.field;
    var name := Upper(c.name);
    if name == "SUM" then g.(sums := g.sums[f := NumberAdd(SlotOr(g.sums, f, Finite(0)), value)])
    else if name == "MIN" then g.(mins := g.mins[f := NumberMin(SlotOr(g.mins, f, value), value)])
    else if name == "MAX" then g.(maxes := g.maxes[f := NumberMax(SlotOr(g.maxes, f, value), value)])
    else g
  }

  /** All aggregate functions, in list order, for one row. */
  function AddAll(g: Group, row: Row, calls: seq<Option<Call>>, read: (Row, string) -> Number): (r: Group)
    ensures r.values == g.values && r.count == g.count
  {
    if calls == [] then g else AddToSlots(AddAll(g, row, calls[..|calls| - 1], read), row, calls[|calls| - 1], read)
  }

  /** One row counted into its group. */
  function Absorb(g: Group, row: Row, calls: seq<Option<Call>>, read: (Row, string) -> Number): Group {
    AddAll(g.(count := g.count + 1), row, calls, read)
  }

  function FoldRows(g: Group, rows: seq<Row>, calls: seq<Option<Call>>, read: (Row, string) -> Number): Group {
    if rows == [] then g else Absorb(FoldRows(g, rows[..|rows| - 1], calls, read), rows[|rows| - 1], calls, read)
  }

  /** The state of a group after all its rows: opened by the first, then every row absorbed in order. */
  function GroupOf(members: seq<Row>, groupBy: seq<string>, calls: seq<Option<Call>>): Group
    requires members != []
  {
    FoldRows(Start(members[0], groupBy), members, calls, CellNumber)
  }

  /** The output entry of one aggregate function; None when it is not one the output knows. */
  function FinalValue(g: Group, func: string): Option<Value> {
    match ParseCall(func, true)
    case None => None
    case Some(c) => CallValue(g, c)
  }

  /** The `switch` of the output pass: a slot's value (`undefined` if never set) or the count. */
  function CallValue(g: Group, c: Call): Option<Value> {
    var name := Upper(c.name);
    if name == "SUM" then Some(SlotValue(g.sums, c.field))
    else if name == "MIN" then Some(SlotValue(g.mins, c.field))
    else if name == "MAX" then Some(SlotValue(g.maxes, c.field))
    else if name == "COUNT" then Some(Num(Finite(g.count)))
    else None
  }

  /** The output row of a group: the group fields, then each aggregate function's entry. */
  function FinalRow(g: Group, groupBy: seq<string>, funcs: seq<string>): Row {
    if funcs == [] then map f | f in groupBy :: Get(g.values, f)
    else
      var row := FinalRow(g, groupBy, funcs[..|funcs| - 1]);
      var func := funcs[|funcs| - 1];
      match FinalValue(g, func)
      case None => row
      case Some(v) => row[func := v]
  }

  /** The group keys in first-appearance order. */
  function GroupKeys(data: seq<Row>, groupBy: seq<string>): seq<string> {
    DistinctKeys(data, groupBy, Hyphen)
  }

  /** What `applyGroupBy` returns: one row per group key, in first-appearance order, each computed from that group's rows only. */
  function GroupRows(data: seq<Row>, groupBy: seq<string>, funcs: seq<string>): (r: seq<Row>)
    ensures |r| == |GroupKeys(data, groupBy)|
  {
    var keys := GroupKeys(data, groupBy);
    seq(|keys|, k requires 0 <= k < |keys| =>
      FinalRow(GroupOf(Members(data, groupBy, Hyphen, keys[k]), groupBy, RunningCalls(funcs)), groupBy, funcs))
  }

  /** Absorbing one more row extends a group's fold by one step. */
  lemma GroupOfStep(members: seq<Row>, row: Row, groupBy: seq<string>, calls: seq<Option<Call>>)
    ensures members != [] ==>
      GroupOf(members + [row], groupBy, calls) == Absorb(GroupOf(members, groupBy, calls), row, calls, CellNumber)
    ensures members == [] ==>
      GroupOf(members + [row], groupBy, calls) == Absorb(Start(row, groupBy), row, calls, CellNumber)
  {
    var ms := members + [row];
    assert ms[..|members|] == members;
    if members != [] {
      assert ms[0] == members[0];
    } else {
      assert ms == [row] && ms[..0] == [];
      assert FoldRows(Start(row, groupBy), ms, calls, CellNumber) ==
        Absorb(FoldRows(Start(row, groupBy), [], calls, CellNumber), row, calls, CellNumber);
    }
  }

  /** The key order grows by the new row's key exactly when that key is new. */
  lemma OrderStep(rows: seq<Row>, row: Row, groupBy: seq<string>)
    ensures var key := RowKey(row, groupBy, Hyphen);
      GroupKeys(rows + [row], groupBy) ==
        if key in GroupKeys(rows, groupBy) then GroupKeys(rows, groupBy) else GroupKeys(rows, groupBy) + [key]
  {
    DistinctKeysStep(rows, row, groupBy, Hyphen);
  }

  /** The dictionary and its key order describe the groups of `rows`. */
  ghost predicate Tracks(groups: map<string, Group>, order: seq<string>, rows: seq<Row>,
                         groupBy: seq<string>, funcs: seq<string>) {
    && order == GroupKeys(rows, groupBy)
    && (forall k :: k in groups <==> k in order)
    && (forall k :: k in groups ==>
          Members(rows, groupBy, Hyphen, k) != [] &&
          groups[k] == GroupOf(Members(rows, groupBy, Hyphen, k), groupBy, RunningCalls(funcs)))
  }

  /** Counting the next row into its group, opened if new, keeps the description. */
  lemma TracksStep(groups: map<string, Group>, order: seq<string>, rows: seq<Row>, row: Row,
                   groupBy: seq<string>, funcs: seq<string>,
                   key: string, g: Group, groups': map<string, Group>, order': seq<string>)
    requires Tracks(groups, order, rows, groupBy, funcs)
    requires key == RowKey(row, groupBy, Hyphen)
    requires g == if key in groups then groups[key] else Start(row, groupBy)
    requires groups' == groups[key := Absorb(g, row, RunningCalls(funcs), CellNumber)]
    requires order' == if key in groups then order else order + [key]
    ensures Tracks(groups', order', rows + [row], groupBy, funcs)
  {
    assert order' == GroupKeys(rows + [row], groupBy) by {
      OrderStep(rows, row, groupBy);
    }
    MapDomainStep(groups, order, key, Absorb(g, row, RunningCalls(funcs), CellNumber), groups', order');
    GroupsStep(groups, rows, row, groupBy, funcs, key, g, groups');
  }

  /** Counting the next row into its group keeps every group equal to the fold over its rows. */
  lemma GroupsStep(groups: map<string, Group>, rows: seq<Row>, row: Row,
                   groupBy: seq<string>, funcs: seq<string>,
                   key: string, g: Group, groups': map<string, Group>)
    requires forall k :: k in groups ==>
      Members(rows, groupBy, Hyphen, k) != [] &&
      groups[k] == GroupOf(Members(rows, groupBy, Hyphen, k), groupBy, RunningCalls(funcs))
    requires key !in groups ==> Members(rows, groupBy, Hyphen, key) == []
    requires key == RowKey(row, groupBy, Hyphen)
    requires g == if key in groups then groups[key] else Start(row, groupBy)
    requires groups' == groups[key := Absorb(g, row, RunningCalls(funcs), CellNumber)]
    ensures forall k :: k in groups' ==>
      Members(rows + [row], groupBy, Hyphen, k) != [] &&
      groups'[k] == GroupOf(Members(rows + [row], groupBy, Hyphen, k), groupBy, RunningCalls(funcs))
  {
    forall k | k in groups'
      ensures Members(rows + [row], groupBy, Hyphen, k) != []
      ensures groups'[k] == GroupOf(Members(rows + [row], groupBy, Hyphen, k), groupBy, RunningCalls(funcs))
    {
      GroupStepAt(groups, rows, row, groupBy, funcs, key, g, groups', k);
    }
  }

  /** `GroupsStep` for one key. */
  lemma GroupStepAt(groups: map<string, Group>, rows: seq<Row>, row: Row,
                    groupBy: seq<string>, funcs: seq<string>,
                    key: string, g: Group, groups': map<string, Group>, k: string)
    requires k in groups ==>
      Members(rows, groupBy, Hyphen, k) != [] &&
      groups[k] == GroupOf(Members(rows, groupBy, Hyphen, k), groupBy, RunningCalls(funcs))
    requires key !in groups ==> Members(rows, groupBy, Hyphen, key) == []
    requires key == RowKey(row, groupBy, Hyphen)
    requires g == if key in groups then groups[key] else Start(row, groupBy)
    requires groups' == groups[key := Absorb(g, row, RunningCalls(funcs), CellNumber)]
    requires k in groups'
    ensures Members(rows + [row], groupBy, Hyphen, k) != []
    ensures groups'[k] == GroupOf(Members(rows + [row], groupBy, Hyphen, k), groupBy, RunningCalls(funcs))
  {
    MembersStep(rows, row, groupBy, Hyphen, k);
    if k == key {
      GroupOfStep(Members(rows, groupBy, Hyphen, k), row, groupBy, RunningCalls(funcs));
    } else {
      assert groups'[k] == groups[k];
    }
  }

  /** Counts a row into its group. */
  method AbsorbRow(g0: Group, row: Row, funcs: seq<string>) returns (g: Group)
    ensures g == Absorb(g0, row, RunningCalls(funcs), CellNumber)
  {
    g := g0.(count := g0.count + 1);
    ghost var counted := g;
    for a := 0 to |funcs|
      invariant g == AddPrefix(counted, row, funcs, a)
    {
      AddPrefixStep(counted, row, funcs, a);
      g := AddRunning(g, row, ParseCall(funcs[a], false));
    }
    AddPrefixAll(g0, row, funcs);
  }

  /** One call's update, reading the row with `parseFloat`. */
  function AddRunning(g: Group, row: Row, call: Option<Call>): Group {
    AddToSlots(g, row, call, CellNumber)
  }

  /** The updates of the first `a` listed calls. */
  function AddPrefix(g: Group, row: Row, funcs: seq<string>, a: nat): Group
    requires a <= |funcs|
  {
    AddAll(g, row, RunningCalls(funcs)[..a], CellNumber)
  }

  /** The next listed call's update extends the updates of the calls before it. */
  lemma AddPrefixStep(g: Group, row: Row, funcs: seq<string>, a: nat)
    requires a < |funcs|
    ensures AddPrefix(g, row, funcs, a + 1) == AddRunning(AddPrefix(g, row, funcs, a), row, ParseCall(funcs[a], false))
  {
    var calls := RunningCalls(funcs);
    assert calls[..a + 1][..a] == calls[..a];
  }

  /** The updates of all the listed calls, after the count, are the row absorbed. */
  lemma AddPrefixAll(g0: Group, row: Row, funcs: seq<string>)
    ensures AddPrefix(g0.(count := g0.count + 1), row, funcs, |funcs|) == Absorb(g0, row, RunningCalls(funcs), CellNumber)
  {
    var calls := RunningCalls(funcs);
    assert calls[..|funcs|] == calls;
  }

  /** One iteration of the `data.forEach` pass: open the row's group if it is new, then count the row into it. */
  method CountRow(groups0: map<string, Group>, order0: seq<string>, ghost rows: seq<Row>, row: Row,
                  groupBy: seq<string>, funcs: seq<string>) returns (groups: map<string, Group>, order: seq<string>)
    requires Tracks(groups0, order0, rows, groupBy, funcs)
    ensures Tracks(groups, order, rows + [row], groupBy, funcs)
  {
    var key := RowKey(row, groupBy, Hyphen);
    var g := if key in groups0 then groups0[key] else Start(row, groupBy);
    order := if key in groups0 then order0 else order0 + [key];
    g := AbsorbRow(g, row, funcs);
    groups := groups0[key := g];
    TracksStep(groups0, order0, rows, row, groupBy, funcs, key,
               if key in groups0 then groups0[key] else Start(row, groupBy), groups, order);
  }

  /** The `data.forEach` pass: the dictionary of groups and the order in which their keys were created. */
  method CollectGroups(data: seq<Row>, groupBy: seq<string>, funcs: seq<string>)
    returns (groups: map<string, Group>, order: seq<string>)
    ensures Tracks(groups, order, data, groupBy, funcs)
  {
    groups := map[];
    order := [];
    for i := 0 to |data|
      invariant Tracks(groups, order, data[..i], groupBy, funcs)
    {
      groups, order := CountRow(groups, order, data[..i], data[i], groupBy, funcs);
      assert data[..i + 1] == data[..i] + [data[i]];
    }
    assert data[..|data|] == data;
  }

  /** The group stored under the `k`-th key gives the `k`-th output row. */
  lemma EmitStep(groups: map<string, Group>, order: seq<string>, data: seq<Row>,
                 groupBy: seq<string>, funcs: seq<string>, k: nat)
    requires Tracks(groups, order, data, groupBy, funcs) && k < |order|
    ensures order[k] in groups && |GroupRows(data, groupBy, funcs)| == |order|
    ensures GroupRows(data, groupBy, funcs)[k] == FinalRow(groups[order[k]], groupBy, funcs)
    ensures GroupRows(data, groupBy, funcs)[..k + 1] ==
      GroupRows(data, groupBy, funcs)[..k] + [FinalRow(groups[order[k]], groupBy, funcs)]
  {
    var all := GroupRows(data, groupBy, funcs);
    GroupRowOf(data, groupBy, funcs, k);
    assert order[k] in groups;
    PrefixExtend(all, k);
  }

  /** `Object.values(groupResults).map(...)`: one output row per group, in key-creation order. */
  method EmitGroups(groups: map<string, Group>, order: seq<string>, ghost data: seq<Row>,
                    groupBy: seq<string>, funcs: seq<string>) returns (result: seq<Row>)
    requires Tracks(groups, order, data, groupBy, funcs)
    ensures result == GroupRows(data, groupBy, funcs)
  {
    ghost var all := GroupRows(data, groupBy, funcs);
    assert |all| == |order|;
    result := [];
    for k := 0 to |order|
      invariant result == all[..k]
    {
      EmitStep(groups, order, data, groupBy, funcs, k);
      result := result + [FinalRow(groups[order[k]], groupBy, funcs)];
    }
    assert all[..|order|] == all;
  }

  /** `applyGroupBy(data, groupByFields, aggregateFunctions)`. */
  method ApplyGroupBy(data: seq<Row>, groupBy: seq<string>, funcs: seq<string>) returns (result: seq<Row>)
    ensures result == GroupRows(data, groupBy, funcs)
  {
    var groups, order := CollectGroups(data, groupBy, funcs);
    result := EmitGroups(groups, order, data, groupBy, funcs);
  }

  // ---- Properties ----

  /** One output row per distinct group key. */
  lemma GroupRowsCount(data: seq<Row>, groupBy: seq<string>, funcs: seq<string>)
    ensures |GroupRows(data, groupBy, funcs)| == |set r | r in data :: RowKey(r, groupBy, Hyphen)|
  {
    FirstAppearancesCount(KeysOf(data, groupBy, Hyphen));
    KeySet(data, groupBy, Hyphen);
  }

  /** The group keys come in order of first appearance: a key listed earlier occurs before any row of a later key. */
  lemma GroupOrder(data: seq<Row>, groupBy: seq<string>, i: nat, j: nat, p: nat)
    requires i < j < |GroupKeys(data, groupBy)| && p < |data|
    requires RowKey(data[p], groupBy, Hyphen) == GroupKeys(data, groupBy)[j]
    ensures GroupKeys(data, groupBy)[i] in KeysOf(data, groupBy, Hyphen)[..p]
  {
    FirstAppearancesOrder(KeysOf(data, groupBy, Hyphen), i, j, p);
  }

  /** Absorbing rows adds one to the count per row and never touches the group fields. */
  lemma {:induction false} FoldCount(g: Group, rows: seq<Row>, calls: seq<Option<Call>>, read: (Row, string) -> Number)
    ensures FoldRows(g, rows, calls, read).count == g.count + |rows|
    ensures FoldRows(g, rows, calls, read).values == g.values
  {
    if rows != [] {
      FoldCount(g, rows[..|rows| - 1], calls, read);
    }
  }

  /** A listed aggregate function's entry is what it computes; a group field no function overwrites keeps its value. */
  lemma {:induction false} FinalRowEntries(g: Group, groupBy: seq<string>, funcs: seq<string>, key: string)
    ensures key in funcs && FinalValue(g, key).Some? ==>
      key in FinalRow(g, groupBy, funcs) && FinalRow(g, groupBy, funcs)[key] == FinalValue(g, key).value
    ensures key in groupBy && FinalValue(g, key).None? ==>
      key in FinalRow(g, groupBy, funcs) && FinalRow(g, groupBy, funcs)[key] == Get(g.values, key)
    ensures key in FinalRow(g, groupBy, funcs) ==> key in groupBy || key in funcs
  {
    if funcs != [] {
      FinalRowEntries(g, groupBy, funcs[..|funcs| - 1], key);
      assert forall k :: k in funcs <==> k in funcs[..|funcs| - 1] || k == funcs[|funcs| - 1];
    }
  }

  /** The `k`-th output row is built from the rows of the `k`-th key. */
  lemma GroupRowOf(data: seq<Row>, groupBy: seq<string>, funcs: seq<string>, k: nat)
    requires k < |GroupKeys(data, groupBy)|
    ensures var ms := Members(data, groupBy, Hyphen, GroupKeys(data, groupBy)[k]);
      ms != [] && GroupRows(data, groupBy, funcs)[k] == FinalRow(GroupOf(ms, groupBy, RunningCalls(funcs)), groupBy, funcs)
  {
  }

  /** `COUNT(x)` or `COUNT(*)` in the output row of a group holds its count. */
  lemma FinalCount(g: Group, groupBy: seq<string>, funcs: seq<string>, arg: string)
    requires IsWord(arg) || arg == "*"
    requires "COUNT(" + arg + ")" in funcs
    ensures var row := FinalRow(g, groupBy, funcs);
      "COUNT(" + arg + ")" in row && row["COUNT(" + arg + ")"] == Num(Finite(g.count))
  {
    var f := "COUNT(" + arg + ")";
    assert FinalValue(g, f) == Some(Num(Finite(g.count))) by {
      if arg == "*" {
        assert f == "COUNT" + "(*)";
        ParseCallOfStar("COUNT");
      } else {
        assert f == "COUNT" + "(" + arg + ")";
        ParseCallOfCall("COUNT", arg, true);
      }
      CountCallValue(g, arg);
    }
    FinalRowEntries(g, groupBy, funcs, f);
  }

  /** The output pass answers a COUNT call with the group's count, whatever its argument. */
  lemma CountCallValue(g: Group, arg: string)
    ensures CallValue(g, Call("COUNT", arg)) == Some(Num(Finite(g.count)))
  {
    UpperCount();
  }

  /** `COUNT(...)` of a group is the number of rows with that group's key. */
  lemma GroupCount(data: seq<Row>, groupBy: seq<string>, funcs: seq<string>, k: nat, arg: string)
    requires k < |GroupKeys(data, groupBy)|
    requires IsWord(arg) || arg == "*"
    requires "COUNT(" + arg + ")" in funcs
    ensures var row := GroupRows(data, groupBy, funcs)[k];
      "COUNT(" + arg + ")" in row &&
      row["COUNT(" + arg + ")"] == Num(Finite(|Members(data, groupBy, Hyphen, GroupKeys(data, groupBy)[k])|))
  {
    var ms := Members(data, groupBy, Hyphen, GroupKeys(data, groupBy)[k]);
    GroupRowOf(data, groupBy, funcs, k);
    FoldCount(Start(ms[0], groupBy), ms, RunningCalls(funcs), CellNumber);
    FinalCount(GroupOf(ms, groupBy, RunningCalls(funcs)), groupBy, funcs, arg);
  }

  /** A plain group column holds the value of the first row that opened the group. */
  lemma GroupField(data: seq<Row>, groupBy: seq<string>, funcs: seq<string>, k: nat, field: string)
    requires k < |GroupKeys(data, groupBy)|
    requires field in groupBy && ParseCall(field, true).None?
    ensures var ms := Members(data, groupBy, Hyphen, GroupKeys(data, groupBy)[k]);
      var row := GroupRows(data, groupBy, funcs)[k];
      ms != [] && field in row && row[field] == Get(ms[0], field)
  {
    var ms := Members(data, groupBy, Hyphen, GroupKeys(data, groupBy)[k]);
    GroupRowOf(data, groupBy, funcs, k);
    var g := GroupOf(ms, groupBy, RunningCalls(funcs));
    FoldCount(Start(ms[0], groupBy), ms, RunningCalls(funcs), CellNumber);
    assert FinalValue(g, field).None?;
    FinalRowEntries(g, groupBy, funcs, field);
  }

  // SUM over a group

  /** How many of the running calls add into the SUM slot of `field`. */
  function SumRefs(calls: seq<Option<Call>>, field: string): nat {
    if calls == [] then 0
    else SumRefs(calls[..|calls| - 1], field) + (if AddsToSum(calls[|calls| - 1], field) then 1 else 0)
  }

  predicate AddsToSum(call: Option<Call>, field: string) {
    call.Some? && Upper(call.value.name) == "SUM" && call.value.field == field
  }

  /** A SUM slot that is unset or holds an integer. */
  predicate SlotFinite(slots: map<string, Number>, field: string) {
    field !in slots || slots[field].Finite?
  }

  /** The integer in a SUM slot, 0 when unset. */
  function SlotInt(slots: map<string, Number>, field: string): int {
    if field in slots && slots[field].Finite? then slots[field].n else 0
  }

  /** `c * v` as `c` repeated additions, the way the slot receives it. */
  function Scale(c: nat, v: int): int {
    if c == 0 then 0 else Scale(c - 1, v) + v
  }

  lemma {:induction false} ScaleAdd(c: nat, a: int, b: int)
    ensures Scale(c, a + b) == Scale(c, a) + Scale(c, b)
  {
    if c > 0 {
      ScaleAdd(c - 1, a, b);
    }
  }

  lemma ScaleSplit(c: nat, total: int, a: int, b: int)
    requires total == a + b
    ensures Scale(c, total) == Scale(c, a) + Scale(c, b)
  {
    ScaleAdd(c, a, b);
  }

  lemma {:induction false} ScaleIsProduct(c: nat, v: int)
    ensures Scale(c, v) == c * v
  {
    if c > 0 {
      ScaleIsProduct(c - 1, v);
    }
  }

  /** One call adds the row's value into the SUM slot of `field` when it is a SUM of `field`, and leaves the slot alone otherwise. */
  lemma AddToSlotsSum(g: Group, row: Row, call: Option<Call>, read: (Row, string) -> Number, field: string, v: int)
    requires SlotFinite(g.sums, field) && read(row, field) == Finite(v)
    ensures var r := AddToSlots(g, row, call, read);
      SlotFinite(r.sums, field) && (field in g.sums ==> field in r.sums) &&
      (AddsToSum(call, field) ==> field in r.sums) &&
      SlotInt(r.sums, field) == SlotInt(g.sums, field) + (if AddsToSum(call, field) then v else 0)
  {
    match call
    case None =>
    case Some(c) =>
      AddCallSum(g, c, read(row, c.field), field);
  }

  lemma AddCallSum(g: Group, c: Call, value: Number, field: string)
    requires SlotFinite(g.sums, field)
    requires Upper(c.name) == "SUM" && c.field == field ==> value.Finite?
    ensures var r := AddCall(g, c, value);
      SlotFinite(r.sums, field) && (field in g.sums ==> field in r.sums) &&
      (Upper(c.name) == "SUM" && c.field == field ==> field in r.sums) &&
      SlotInt(r.sums, field) == SlotInt(g.sums, field) + (if Upper(c.name) == "SUM" && c.field == field then value.n else 0)
  {
  }

  /** One row adds its value once for every SUM of the field in the list. */
  lemma {:induction false} AddAllSum(g: Group, row: Row, calls: seq<Option<Call>>, read: (Row, string) -> Number, field: string, v: int)
    requires SlotFinite(g.sums, field) && read(row, field) == Finite(v)
    ensures var r := AddAll(g, row, calls, read);
      SlotFinite(r.sums, field) && (field in g.sums ==> field in r.sums) &&
      (SumRefs(calls, field) > 0 ==> field in r.sums) &&
      SlotInt(r.sums, field) == SlotInt(g.sums, field) + Scale(SumRefs(calls, field), v)
  {
    if calls != [] {
      var pre := calls[..|calls| - 1];
      AddAllSum(g, row, pre, read, field, v);
      AddToSlotsSum(AddAll(g, row, pre, read), row, calls[|calls| - 1], read, field, v);
    }
  }

  /** Every row holds a number in `field`. */
  predicate NumericIn(rows: seq<Row>, field: string, read: (Row, string) -> Number) {
    forall i :: 0 <= i < |rows| ==> read(rows[i], field).Finite?
  }

  /** The sum of the values in `field` over the rows, counting a row without a number as 0. */
  function RowTotal(rows: seq<Row>, field: string, read: (Row, string) -> Number): int {
    if rows == [] then 0
    else
      var x := read(rows[|rows| - 1], field);
      RowTotal(rows[..|rows| - 1], field, read) + (if x.Finite? then x.n else 0)
  }

  /** The values `read` finds in `field`, row by row. */
  function Readings(rows: seq<Row>, field: string, read: (Row, string) -> Number): (r: seq<Number>)
    ensures |r| == |rows| && forall i :: 0 <= i < |rows| ==> r[i] == read(rows[i], field)
  {
    seq(|rows|, i requires 0 <= i < |rows| => read(rows[i], field))
  }

  lemma {:induction false} RowTotalIsTotal(rows: seq<Row>, field: string, read: (Row, string) -> Number)
    ensures RowTotal(rows, field, read) == Total(Readings(rows, field, read))
    ensures NumericIn(rows, field, read) <==> AllFinite(Readings(rows, field, read))
  {
    if rows != [] {
      var pre := rows[..|rows| - 1];
      RowTotalIsTotal(pre, field, read);
      var xs := Readings(rows, field, read);
      assert xs[..|pre|] == Readings(pre, field, read);
    }
  }

  /** With `parseFloat` as the reader, the readings are the field's numbers. */
  lemma ReadingsAreFieldNumbers(rows: seq<Row>, field: string)
    ensures Readings(rows, field, CellNumber) == FieldNumbers(rows, field)
  {
  }

  /** Over a run of rows with numeric values, the slot grows by the multiplicity times their sum. */
  lemma {:induction false} FoldSum(g: Group, rows: seq<Row>, calls: seq<Option<Call>>, read: (Row, string) -> Number, field: string)
    requires SlotFinite(g.sums, field) && NumericIn(rows, field, read)
    ensures var r := FoldRows(g, rows, calls, read);
      SlotFinite(r.sums, field) &&
      (rows != [] && SumRefs(calls, field) > 0 ==> field in r.sums) &&
      SlotInt(r.sums, field) == SlotInt(g.sums, field) + Scale(SumRefs(calls, field), RowTotal(rows, field, read))
  {
    if rows != [] {
      var pre := rows[..|rows| - 1];
      var last := rows[|rows| - 1];
      assert read(last, field).Finite?;
      var v := read(last, field).n;
      FoldSum(g, pre, calls, read, field);
      var h := FoldRows(g, pre, calls, read);
      AddAllSum(h.(count := h.count + 1), last, calls, read, field, v);
      ScaleSplit(SumRefs(calls, field), RowTotal(rows, field, read), RowTotal(pre, field, read), v);
    } else {
      ScaleAdd(SumRefs(calls, field), 0, 0);
    }
  }

  /** `SUM(x)` in the output row of a group holds the slot of `x`. */
  lemma FinalSum(g: Group, groupBy: seq<string>, funcs: seq<string>, arg: string)
    requires IsWord(arg) && "SUM(" + arg + ")" in funcs
    ensures var row := FinalRow(g, groupBy, funcs);
      "SUM(" + arg + ")" in row && row["SUM(" + arg + ")"] == SlotValue(g.sums, arg)
  {
    var f := "SUM(" + arg + ")";
    assert f == "SUM" + "(" + arg + ")";
    ParseCallOfCall("SUM", arg, true);
    UpperSum();
    assert FinalValue(g, f) == Some(SlotValue(g.sums, arg));
    FinalRowEntries(g, groupBy, funcs, f);
  }

  /** A listed `SUM(x)` gives a running call that adds into the slot of `x`. */
  lemma {:induction false} SumRefsPositive(funcs: seq<string>, arg: string)
    requires IsWord(arg) && "SUM(" + arg + ")" in funcs
    ensures SumRefs(RunningCalls(funcs), arg) > 0
  {
    var calls := RunningCalls(funcs);
    var f := "SUM(" + arg + ")";
    var i :| 0 <= i < |funcs| && funcs[i] == f;
    SumCallAdds(arg);
    SumRefsAt(calls, arg, i);
  }

  /** The running pass reads `SUM(x)` as a call adding into the slot of `x`. */
  lemma SumCallAdds(arg: string)
    requires IsWord(arg)
    ensures AddsToSum(ParseCall("SUM(" + arg + ")", false), arg)
  {
    assert IsWord("SUM") by {
      assert "SUM"[0] == 'S' && "SUM"[1] == 'U' && "SUM"[2] == 'M';
    }
    assert "SUM(" + arg + ")" == "SUM" + "(" + arg + ")";
    ParseCallOfCall("SUM", arg, false);
    UpperSum();
  }

  lemma {:induction false} SumRefsAt(calls: seq<Option<Call>>, field: string, i: nat)
    requires i < |calls| && AddsToSum(calls[i], field)
    ensures SumRefs(calls, field) > 0
  {
    if i < |calls| - 1 {
      SumRefsAt(calls[..|calls| - 1], field, i);
    }
  }

  /**
   * `SUM(x)` of a group, when every row of the group holds a number in `x`:
   * the sum over that group's rows only, once for every SUM of `x` listed
   * (they all add into the same slot).
   */
  lemma GroupSum(data: seq<Row>, groupBy: seq<string>, funcs: seq<string>, k: nat, arg: string)
    requires k < |GroupKeys(data, groupBy)|
    requires IsWord(arg) && "SUM(" + arg + ")" in funcs
    requires AllFinite(FieldNumbers(Members(data, groupBy, Hyphen, GroupKeys(data, groupBy)[k]), arg))
    ensures var ms := Members(data, groupBy, Hyphen, GroupKeys(data, groupBy)[k]);
      var row := GroupRows(data, groupBy, funcs)[k];
      "SUM(" + arg + ")" in row &&
      row["SUM(" + arg + ")"] == Num(Finite(SumRefs(RunningCalls(funcs), arg) * Total(FieldNumbers(ms, arg))))
  {
    var ms := Members(data, groupBy, Hyphen, GroupKeys(data, groupBy)[k]);
    var calls := RunningCalls(funcs);
    GroupRowOf(data, groupBy, funcs, k);
    SumRefsPositive(funcs, arg);
    RowTotalIsTotal(ms, arg, CellNumber);
    ReadingsAreFieldNumbers(ms, arg);
    FoldSum(Start(ms[0], groupBy), ms, calls, CellNumber, arg);
    ScaleIsProduct(SumRefs(calls, arg), Total(FieldNumbers(ms, arg)));
    FinalSum(GroupOf(ms, groupBy, calls), groupBy, funcs, arg);
  }

  // MIN and MAX treat a stored 0 as unset

  lemma UpperMinMax()
    ensures Upper("MIN") == "MIN" && Upper("MAX") == "MAX"
  {
    assert UpperChar('M') == 'M' && UpperChar('I') == 'I' && UpperChar('N') == 'N';
    assert UpperChar('A') == 'A' && UpperChar('X') == 'X';
  }

  /** `MIN(x)` and `MAX(x)` are read as those calls by the running pass. */
  lemma ParseMinMax(arg: string)
    requires IsWord(arg)
    ensures ParseCall("MIN(" + arg + ")", false) == Some(Call("MIN", arg))
    ensures ParseCall("MAX(" + arg + ")", false) == Some(Call("MAX", arg))
  {
    assert "MIN(" + arg + ")" == "MIN" + "(" + arg + ")";
    assert "MAX(" + arg + ")" == "MAX" + "(" + arg + ")";
    ParseCallOfCall("MIN", arg, false);
    ParseCallOfCall("MAX", arg, false);
  }

  /** The running pass on `MIN(x)` or `MAX(x)` updates the slot of `x` from the row's value. */
  lemma MinMaxSlots(g: Group, row: Row, arg: string)
    requires IsWord(arg)
    ensures var value := ParseFloat(Get(row, arg));
      AddToSlots(g, row, ParseCall("MIN(" + arg + ")", false), CellNumber) == g.(mins := g.mins[arg := NumberMin(SlotOr(g.mins, arg, value), value)])
    ensures var value := ParseFloat(Get(row, arg));
      AddToSlots(g, row, ParseCall("MAX(" + arg + ")", false), CellNumber) == g.(maxes := g.maxes[arg := NumberMax(SlotOr(g.maxes, arg, value), value)])
  {
    ParseMinMax(arg);
    MinMaxCall(g, arg, ParseFloat(Get(row, arg)));
  }

  lemma MinMaxCall(g: Group, arg: string, value: Number)
    ensures AddCall(g, Call("MIN", arg), value) == g.(mins := g.mins[arg := NumberMin(SlotOr(g.mins, arg, value), value)])
    ensures AddCall(g, Call("MAX", arg), value) == g.(maxes := g.maxes[arg := NumberMax(SlotOr(g.maxes, arg, value), value)])
  {
    UpperMinMax();
    assert "MIN" != "SUM" && "MAX" != "SUM" && "MAX" != "MIN";
  }

  /**
   * The running MIN is seeded with `stored || value`: a stored 0 is falsy, so
   * the next value replaces it even when it is larger. A group with values
   * 0 and then 5 reports MIN 5.
   */
  lemma MinForgetsZero(g: Group, row: Row, arg: string, v: int)
    requires IsWord(arg) && arg in g.mins && g.mins[arg] == Finite(0)
    requires ParseFloat(Get(row, arg)) == Finite(v)
    ensures var r := AddToSlots(g, row, ParseCall("MIN(" + arg + ")", false), CellNumber); arg in r.mins && r.mins[arg] == Finite(v)
  {
    MinMaxSlots(g, row, arg);
  }

  /** Likewise for MAX: values -3, 0, -5 in a group leave MAX at -5. */
  lemma MaxForgetsZero(g: Group, row: Row, arg: string, v: int)
    requires IsWord(arg) && arg in g.maxes && g.maxes[arg] == Finite(0)
    requires ParseFloat(Get(row, arg)) == Finite(v)
    ensures var r := AddToSlots(g, row, ParseCall("MAX(" + arg + ")", false), CellNumber); arg in r.maxes && r.maxes[arg] == Finite(v)
  {
    MinMaxSlots(g, row, arg);
  }

  /** Away from a stored 0 (or NaN), the running MIN and MAX are the true minimum and maximum so far. */
  lemma MinMaxStep(g: Group, row: Row, arg: string, v: int)
    requires IsWord(arg) && ParseFloat(Get(row, arg)) == Finite(v)
    ensures var r := AddToSlots(g, row, ParseCall("MIN(" + arg + ")", false), CellNumber);
      arg in r.mins && r.mins[arg] == if arg in g.mins && TruthyNumber(g.mins[arg]) then NumberMin(g.mins[arg], Finite(v)) else Finite(v)
    ensures var r := AddToSlots(g, row, ParseCall("MAX(" + arg + ")", false), CellNumber);
      arg in r.maxes && r.maxes[arg] == if arg in g.maxes && TruthyNumber(g.maxes[arg]) then NumberMax(g.maxes[arg], Finite(v)) else Finite(v)
  {
    MinMaxSlots(g, row, arg);
  }
}
