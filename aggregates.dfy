/**
 * Aggregate calls in a field list, `NAME(field)`, as found by the regular
 * expressions `(\w+)\((\w+)\)` and `(\w+)\((\*|\w+)\)`, and the single row
 * that a whole-table aggregate query (no GROUP BY) returns.
 */
module Aggregates {
  import opened Wrappers
  import opened JsText
  import opened JsValues

  /** The two capture groups of a match: the function name and its argument. */
  datatype Call = Call(name: string, field: string)

  /** Length of the leading run of word characters (`\w+` is greedy). */
  function WordRun(s: string): (n: nat)
    ensures n <= |s|
    ensures forall k :: 0 <= k < n ==> IsWordChar(s[k])
    ensures n < |s| ==> !IsWordChar(s[n])
  {
    if s == [] || !IsWordChar(s[0]) then 0 else 1 + WordRun(s[1..])
  }

  /**
   * The match starting exactly at `i`, if any. Backtracking never helps: a
   * shorter word run is followed by a word character, never by `(` or `)`.
   */
  function MatchAt(s: string, i: nat, allowStar: bool): Option<Call>
    requires i <= |s|
  {
    var n := WordRun(s[i..]);
    if n == 0 || i + n >= |s| || s[i + n] != '(' then None
    else
      var j := i + n + 1;
      if allowStar && j < |s| && s[j] == '*' then
        (if j + 1 < |s| && s[j + 1] == ')' then Some(Call(s[i..i + n], "*")) else None)
      else
        var m := WordRun(s[j..]);
        if m == 0 || j + m >= |s| || s[j + m] != ')' then None
        else Some(Call(s[i..i + n], s[j..j + m]))
  }

  /** `regex.exec(s)` from position `i`: the leftmost match. */
  function SearchFrom(s: string, i: nat, allowStar: bool): (r: Option<Call>)
    requires i <= |s|
    ensures r.Some? ==> r.value.name != [] && forall k :: 0 <= k < |r.value.name| ==> IsWordChar(r.value.name[k])
    ensures r.Some? && !allowStar ==> r.value.field != [] && forall k :: 0 <= k < |r.value.field| ==> IsWordChar(r.value.field[k])
    decreases |s| - i
  {
    if i == |s| then None
    else
      match MatchAt(s, i, allowStar)
      case Some(c) =>
        assert forall k :: 0 <= k < |c.name| ==> c.name[k] == s[i..][k];
        assert !allowStar ==> forall k :: 0 <= k < |c.field| ==> c.field[k] == s[i + WordRun(s[i..]) + 1..][k];
        Some(c)
      case None => SearchFrom(s, i + 1, allowStar)
  }

  /** `/(\w+)\((\w+)\)/.exec(s)`, or with `allowStar` `/(\w+)\((\*|\w+)\)/.exec(s)`. */
  function ParseCall(s: string, allowStar: bool): Option<Call> {
    SearchFrom(s, 0, allowStar)
  }

  predicate IsWord(s: string) {
    s != [] && forall k :: 0 <= k < |s| ==> IsWordChar(s[k])
  }

  lemma {:induction false} WordRunOf(w: string, rest: string)
    requires IsWord(w) && (rest == [] || !IsWordChar(rest[0]))
    ensures WordRun(w + rest) == |w|
  {
    if |w| > 1 {
      assert (w + rest)[1..] == w[1..] + rest;
      WordRunOf(w[1..], rest);
    } else {
      assert (w + rest)[1..] == rest;
    }
  }

  /** A call written `NAME(field)` is read back as that name and field, with or without `*` allowed. */
  lemma ParseCallOfCall(name: string, field: string, allowStar: bool)
    requires IsWord(name) && IsWord(field)
    ensures ParseCall(name + "(" + field + ")", allowStar) == Some(Call(name, field))
  {
    var s := name + "(" + field + ")";
    assert s[0..] == name + ("(" + field + ")");
    WordRunOf(name, "(" + field + ")");
    var j := |name| + 1;
    assert s[j..] == field + ")";
    WordRunOf(field, ")");
    assert s[0..|name|] == name;
    assert s[j..j + |field|] == field;
    assert s[|name|] == '(' && s[j + |field|] == ')';
    assert !IsWordChar('*');
    assert s[j] == field[0];
  }

  /** `NAME(*)` is a match only when `*` is allowed. */
  lemma ParseCallOfStar(name: string)
    requires IsWord(name)
    ensures ParseCall(name + "(*)", true) == Some(Call(name, "*"))
  {
    var s := name + "(*)";
    assert s[0..] == name + "(*)";
    WordRunOf(name, "(*)");
    assert s[0..|name|] == name;
    assert s[|name|] == '(' && s[|name| + 1] == '*' && s[|name| + 2] == ')';
  }

  // ---- The whole-table aggregate row ----

  /** The numbers `parseFloat(row[field])` of the rows, in table order. */
  function FieldNumbers(rows: seq<Row>, field: string): (r: seq<Number>)
    ensures |r| == |rows| && forall i :: 0 <= i < |rows| ==> r[i] == ParseFloat(Get(rows[i], field))
  {
    seq(|rows|, i requires 0 <= i < |rows| => ParseFloat(Get(rows[i], field)))
  }

  /** `xs.reduce((acc, x) => acc + x, 0)`. */
  function Sum(xs: seq<Number>): Number {
    if xs == [] then Finite(0) else NumberAdd(Sum(xs[..|xs| - 1]), xs[|xs| - 1])
  }

  /** `Math.min(...xs)`: Infinity for no arguments. */
  function Min(xs: seq<Number>): Number {
    if xs == [] then PosInf else NumberMin(Min(xs[..|xs| - 1]), xs[|xs| - 1])
  }

  /** `Math.max(...xs)`: -Infinity for no arguments. */
  function Max(xs: seq<Number>): Number {
    if xs == [] then NegInf else NumberMax(Max(xs[..|xs| - 1]), xs[|xs| - 1])
  }

  /** The value one field contributes to the aggregate row; None for a field that is not an aggregate it knows. */
  function AggregateValue(rows: seq<Row>, field: string): Option<Value> {
    match ParseCall(field, true)
    case None => None
    case Some(c) =>
      var name := Upper(c.name);
      if name == "COUNT" then Some(Num(Finite(|rows|)))
      else if name == "SUM" then Some(Num(Sum(FieldNumbers(rows, c.field))))
      else if name == "MIN" then Some(Num(Min(FieldNumbers(rows, c.field))))
      else if name == "MAX" then Some(Num(Max(FieldNumbers(rows, c.field))))
      else None
  }

  /** The single row of `SELECT COUNT(*), SUM(x), ... FROM t`, filled field by field. */
  function AggregateRow(rows: seq<Row>, fields: seq<string>): Row {
    if fields == [] then map[]
    else
      var result := AggregateRow(rows, fields[..|fields| - 1]);
      var field := fields[|fields| - 1];
      match AggregateValue(rows, field)
      case None => result
      case Some(v) => result[field := v]
  }

  // ---- Properties ----

  /** The aggregate row has an entry exactly for the listed fields that are known aggregates, holding what each computes. */
  lemma {:induction false} AggregateRowEntries(rows: seq<Row>, fields: seq<string>)
    ensures forall k :: k in AggregateRow(rows, fields) <==> k in fields && AggregateValue(rows, k).Some?
    ensures forall k :: k in AggregateRow(rows, fields) ==> AggregateRow(rows, fields)[k] == AggregateValue(rows, k).value
  {
    if fields != [] {
      AggregateRowEntries(rows, fields[..|fields| - 1]);
      assert forall k :: k in fields <==> k in fields[..|fields| - 1] || k == fields[|fields| - 1];
    }
  }

  lemma UpperCount()
    ensures Upper("COUNT") == "COUNT"
  {
    assert UpperChar('C') == 'C' && UpperChar('O') == 'O' && UpperChar('U') == 'U';
    assert UpperChar('N') == 'N' && UpperChar('T') == 'T';
  }

  /** `COUNT(...)` in a whole-table aggregate is the number of filtered rows. */
  lemma AggregateCount(rows: seq<Row>, fields: seq<string>, arg: string)
    requires IsWord(arg) || arg == "*"
    requires "COUNT(" + arg + ")" in fields
    ensures "COUNT(" + arg + ")" in AggregateRow(rows, fields)
    ensures AggregateRow(rows, fields)["COUNT(" + arg + ")"] == Num(Finite(|rows|))
  {
    var f := "COUNT(" + arg + ")";
    if arg == "*" {
      assert f == "COUNT" + "(*)";
      ParseCallOfStar("COUNT");
    } else {
      assert f == "COUNT" + "(" + arg + ")";
      ParseCallOfCall("COUNT", arg, true);
    }
    UpperCount();
    assert AggregateValue(rows, f) == Some(Num(Finite(|rows|)));
    AggregateRowEntries(rows, fields);
  }

  /** The arithmetic sum of the finite numbers among `xs`. */
  function Total(xs: seq<Number>): int {
    if xs == [] then 0
    else Total(xs[..|xs| - 1]) + (if xs[|xs| - 1].Finite? then xs[|xs| - 1].n else 0)
  }

  predicate AllFinite(xs: seq<Number>) {
    forall i :: 0 <= i < |xs| ==> xs[i].Finite?
  }

  /** Over finite numbers the running sum is the arithmetic sum. */
  lemma {:induction false} SumOfFinite(xs: seq<Number>)
    requires AllFinite(xs)
    ensures Sum(xs) == Finite(Total(xs))
  {
    if xs != [] {
      SumOfFinite(xs[..|xs| - 1]);
    }
  }

  lemma UpperSum()
    ensures Upper("SUM") == "SUM"
  {
    assert UpperChar('S') == 'S' && UpperChar('U') == 'U' && UpperChar('M') == 'M';
  }

  lemma SumValue(rows: seq<Row>, f: string, arg: string)
    requires ParseCall(f, true) == Some(Call("SUM", arg))
    ensures AggregateValue(rows, f) == Some(Num(Sum(FieldNumbers(rows, arg))))
  {
    UpperSum();
    assert "SUM" != "COUNT";
  }

  /** `SUM(x)` in a whole-table aggregate is the sum of `x` over the filtered rows when every value is a number. */
  lemma AggregateSum(rows: seq<Row>, fields: seq<string>, arg: string)
    requires IsWord(arg) && "SUM(" + arg + ")" in fields
    requires AllFinite(FieldNumbers(rows, arg))
    ensures "SUM(" + arg + ")" in AggregateRow(rows, fields)
    ensures AggregateRow(rows, fields)["SUM(" + arg + ")"] == Num(Finite(Total(FieldNumbers(rows, arg))))
  {
    var f := "SUM(" + arg + ")";
    assert f == "SUM" + "(" + arg + ")";
    ParseCallOfCall("SUM", arg, true);
    SumValue(rows, f, arg);
    SumOfFinite(FieldNumbers(rows, arg));
    AggregateRowEntries(rows, fields);
  }

  /** Without NaN, MIN is a lower bound that is attained (Infinity for no rows); MAX likewise. */
  lemma {:induction false} MinMaxBounds(xs: seq<Number>)
    requires forall i :: 0 <= i < |xs| ==> xs[i] != NaN
    ensures xs == [] ==> Min(xs) == PosInf && Max(xs) == NegInf
    ensures forall i :: 0 <= i < |xs| ==> NumberLessEq(Min(xs), xs[i]) && NumberLessEq(xs[i], Max(xs))
    ensures xs != [] ==> Min(xs) in xs && Max(xs) in xs
  {
    if xs != [] {
      var pre := xs[..|xs| - 1];
      MinMaxBounds(pre);
      assert forall i :: 0 <= i < |pre| ==> xs[i] == pre[i];
      if pre != [] {
        assert Min(pre) in xs && Max(pre) in xs;
        NumberLessEqTransitive();
      }
    }
  }

  /** `<=` on non-NaN numbers is transitive. */
  lemma NumberLessEqTransitive()
    ensures forall x, y, z :: x != NaN && y != NaN && z != NaN && NumberLessEq(x, y) && NumberLessEq(y, z) ==> NumberLessEq(x, z)
  {
  }

  /** A NaN among the values makes MIN and MAX NaN. */
  lemma {:induction false} MinMaxNaN(xs: seq<Number>, i: nat)
    requires i < |xs| && xs[i] == NaN
    ensures Min(xs) == NaN && Max(xs) == NaN
  {
    if i < |xs| - 1 {
      MinMaxNaN(xs[..|xs| - 1], i);
    }
  }
}
