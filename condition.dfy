/**
 * WHERE evaluation: one clause against one row, with each side classified
 * on its own as numeric or text, the six comparisons and LIKE; a clause list
 * is the conjunction of its clauses, evaluated left to right; filtering a
 * table keeps the rows whose conjunction has the wanted truth value.
 */
module Condition {
  import opened Wrappers
  import opened JsText
  import opened JsValues
  import opened Seqs

  /** One WHERE comparison, as the statement parser delivers it. */
  datatype Clause = Clause(field: string, operator: string, value: string)

  predicate IsSupported(op: string) {
    op == "LIKE" || op == "=" || op == "!=" || op == ">" || op == "<" || op == ">=" || op == "<="
  }

  /** `isNaN(v) ? v : parseFloat(v)`: a side that reads as a number becomes that number. */
  function Convert(v: Value): (r: Value)
    ensures IsNaN(v) ==> r == v
    ensures !IsNaN(v) ==> r.Num?
  {
    if IsNaN(v) then v else Num(ParseFloat(v))
  }

  /** The characters that `.` in a regular expression does not match. */
  predicate IsLineTerminator(c: char) {
    c == '\n' || c == '\r' || c == '\U{2028}' || c == '\U{2029}'
  }

  /** A pattern character other than a wildcard matches a text character regardless of case. */
  predicate SameIgnoringCase(a: char, b: char) {
    UpperChar(a) == UpperChar(b)
  }

  /**
   * The anchored, case-insensitive regular expression a LIKE pattern becomes:
   * `%` is `.*` and `_` is `.`, so both match any character but a line terminator.
   */
  predicate Like(pattern: string, text: string)
    decreases |pattern| + |text|
  {
    if pattern == [] then text == []
    else if pattern[0] == '%' then
      Like(pattern[1..], text) || (text != [] && !IsLineTerminator(text[0]) && Like(pattern, text[1..]))
    else if pattern[0] == '_' then
      text != [] && !IsLineTerminator(text[0]) && Like(pattern[1..], text[1..])
    else
      text != [] && SameIgnoringCase(pattern[0], text[0]) && Like(pattern[1..], text[1..])
  }

  /** One clause against one row. */
  function Evaluate(row: Row, clause: Clause): (r: Result<bool, Error>)
    ensures r.Failure? <==> !IsSupported(clause.operator)
    ensures r.Failure? ==> r.error == UnsupportedOperator(clause.operator)
    ensures clause.operator == "LIKE" ==> r == Ok(Like(clause.value, ToText(Get(row, clause.field))))
  {
    if clause.operator == "LIKE" then Ok(Like(clause.value, ToText(Get(row, clause.field))))
    else Compare(clause.operator, Convert(Get(row, clause.field)), Convert(Str(clause.value)))
  }

  /** The comparison operators on the two converted sides. */
  function Compare(op: string, actual: Value, literal: Value): (r: Result<bool, Error>)
    ensures r.Failure? <==> !IsSupported(op) || op == "LIKE"
    ensures r.Failure? ==> r.error == UnsupportedOperator(op)
  {
    match op
    case "=" => Ok(StrictEquals(actual, literal))
    case "!=" => Ok(!StrictEquals(actual, literal))
    case ">" => Ok(LessThan(literal, actual))
    case "<" => Ok(LessThan(actual, literal))
    case ">=" => Ok(LessOrEqual(literal, actual))
    case "<=" => Ok(LessOrEqual(actual, literal))
    case _ => Failure(UnsupportedOperator(op))
  }

  /**
   * `every` over the clause outcomes in order: the first false outcome decides
   * false, the first failure before it is raised, otherwise the result is true.
   */
  function Every(outcomes: seq<Result<bool, Error>>): (r: Result<bool, Error>)
    ensures r == Ok(true) <==> forall i :: 0 <= i < |outcomes| ==> outcomes[i] == Ok(true)
    ensures r == Ok(false) <==>
      exists i :: 0 <= i < |outcomes| && outcomes[i] == Ok(false) &&
        forall j :: 0 <= j < i ==> outcomes[j] == Ok(true)
    ensures r.Failure? ==>
      exists i :: 0 <= i < |outcomes| && outcomes[i] == r &&
        forall j :: 0 <= j < i ==> outcomes[j] == Ok(true)
  {
    if outcomes == [] then Ok(true)
    else
      match outcomes[0]
      case Failure(e) => Failure(e)
      case Ok(false) => Ok(false)
      case Ok(true) =>
        var rest := Every(outcomes[1..]);
        assert forall i :: 1 <= i < |outcomes| ==> outcomes[i] == outcomes[1..][i - 1];
        rest
  }

  /** Outcome of each clause against the row, in clause order. */
  function Outcomes(row: Row, clauses: seq<Clause>): (r: seq<Result<bool, Error>>)
    ensures |r| == |clauses| && forall i :: 0 <= i < |clauses| ==> r[i] == Evaluate(row, clauses[i])
  {
    seq(|clauses|, i requires 0 <= i < |clauses| => Evaluate(row, clauses[i]))
  }

  /** `clauses.every(clause => evaluateCondition(row, clause))`. */
  function EvaluateAll(row: Row, clauses: seq<Clause>): Result<bool, Error> {
    Every(Outcomes(row, clauses))
  }

  /** Number of positions holding `x` whose outcome is `keepWhen`. */
  function KeptCount(rows: seq<Row>, outcomes: seq<Result<bool, Error>>, keepWhen: bool, x: Row): nat
    requires |outcomes| == |rows|
  {
    if rows == [] then 0
    else (if rows[0] == x && outcomes[0] == Ok(keepWhen) then 1 else 0) + KeptCount(rows[1..], outcomes[1..], keepWhen, x)
  }

  /**
   * `rows.filter(...)` given the outcome of the predicate for each row, in row
   * order: the first failure is raised, otherwise the rows whose outcome is
   * `keepWhen` are kept.
   */
  function FilterOutcomes(rows: seq<Row>, outcomes: seq<Result<bool, Error>>, keepWhen: bool): (r: Result<seq<Row>, Error>)
    requires |outcomes| == |rows|
    ensures r.Ok? <==> forall i :: 0 <= i < |rows| ==> outcomes[i].Ok?
    ensures r.Ok? ==> IsSubsequence(r.value, rows)
    ensures r.Ok? ==> forall x :: x in r.value <==> exists i :: 0 <= i < |rows| && rows[i] == x && outcomes[i] == Ok(keepWhen)
    ensures r.Ok? ==> forall x :: multiset(r.value)[x] == KeptCount(rows, outcomes, keepWhen, x)
    ensures r.Failure? ==> exists i :: 0 <= i < |rows| && outcomes[i] == Failure(r.error)
  {
    if rows == [] then Ok([])
    else
      var rest := FilterOutcomes(rows[1..], outcomes[1..], keepWhen);
      assert forall i :: 1 <= i < |rows| ==> rows[i] == rows[1..][i - 1] && outcomes[i] == outcomes[1..][i - 1];
      match outcomes[0]
      case Failure(e) => Failure(e)
      case Ok(b) =>
        match rest
        case Failure(e) => Failure(e)
        case Ok(tail) =>
          if b == keepWhen then
            assert ([rows[0]] + tail)[1..] == tail;
            KeptHead(rows, outcomes, keepWhen, tail);
            Ok([rows[0]] + tail)
          else
            KeptWithoutHead(rows, outcomes, keepWhen, tail);
            SubsequenceDropHead(tail, rows[1..], rows[0]);
            assert [rows[0]] + rows[1..] == rows;
            Ok(tail)
  }

  /** A kept head row adds one occurrence to the count of the rest. */
  lemma KeptHead(rows: seq<Row>, outcomes: seq<Result<bool, Error>>, keepWhen: bool, tail: seq<Row>)
    requires |outcomes| == |rows| && rows != [] && outcomes[0] == Ok(keepWhen)
    requires forall x :: multiset(tail)[x] == KeptCount(rows[1..], outcomes[1..], keepWhen, x)
    ensures forall x :: multiset([rows[0]] + tail)[x] == KeptCount(rows, outcomes, keepWhen, x)
  {
    assert multiset([rows[0]] + tail) == multiset{rows[0]} + multiset(tail);
  }

  /** A head row that is not kept adds nothing to the count of the rest. */
  lemma KeptWithoutHead(rows: seq<Row>, outcomes: seq<Result<bool, Error>>, keepWhen: bool, tail: seq<Row>)
    requires |outcomes| == |rows| && rows != [] && outcomes[0] != Ok(keepWhen)
    requires forall x :: multiset(tail)[x] == KeptCount(rows[1..], outcomes[1..], keepWhen, x)
    ensures forall x :: multiset(tail)[x] == KeptCount(rows, outcomes, keepWhen, x)
  { }

  /** Outcome of the clause conjunction for each row, in row order. */
  function RowOutcomes(rows: seq<Row>, clauses: seq<Clause>): (r: seq<Result<bool, Error>>)
    ensures |r| == |rows| && forall i :: 0 <= i < |rows| ==> r[i] == EvaluateAll(rows[i], clauses)
  {
    seq(|rows|, i requires 0 <= i < |rows| => EvaluateAll(rows[i], clauses))
  }

  /** A row occurs among the positions kept by the clauses as often as in the table, or not at all. */
  lemma KeptCountByClauses(rows: seq<Row>, clauses: seq<Clause>, keepWhen: bool)
    ensures forall x ::
      KeptCount(rows, RowOutcomes(rows, clauses), keepWhen, x) == if EvaluateAll(x, clauses) == Ok(keepWhen) then multiset(rows)[x] else 0
  {
    KeptCountByRow(rows, RowOutcomes(rows, clauses), keepWhen, x => EvaluateAll(x, clauses) == Ok(keepWhen));
  }

  /** When each position's outcome is decided by its row alone, a row is kept as often as it occurs, or never. */
  lemma {:induction false} KeptCountByRow(rows: seq<Row>, outcomes: seq<Result<bool, Error>>, keepWhen: bool, kept: Row -> bool)
    requires |outcomes| == |rows|
    requires forall i :: 0 <= i < |rows| ==> (outcomes[i] == Ok(keepWhen) <==> kept(rows[i]))
    ensures forall x :: KeptCount(rows, outcomes, keepWhen, x) == if kept(x) then multiset(rows)[x] else 0
  {
    if rows != [] {
      assert multiset(rows) == multiset{rows[0]} + multiset(rows[1..]) by {
        assert rows == [rows[0]] + rows[1..];
      }
      KeptCountByRow(rows[1..], outcomes[1..], keepWhen, kept);
    }
  }

  /**
   * `rows.filter(row => clauses.every(...) == keepWhen)`: SELECT keeps the rows
   * where every clause holds (keepWhen), DELETE the rows where not every clause holds.
   */
  function FilterBy(rows: seq<Row>, clauses: seq<Clause>, keepWhen: bool): Result<seq<Row>, Error> {
    FilterOutcomes(rows, RowOutcomes(rows, clauses), keepWhen)
  }

  // ---- LIKE ----

  predicate NoLineTerminator(t: string) {
    forall i :: 0 <= i < |t| ==> !IsLineTerminator(t[i])
  }

  /** Matching a concatenated pattern: the text splits into a part for each half. */
  lemma {:induction false} LikeConcat(p: string, q: string, t: string)
    ensures Like(p + q, t) <==> exists k :: 0 <= k <= |t| && Like(p, t[..k]) && Like(q, t[k..])
    decreases |p| + |t|
  {
    if p == [] {
      assert p + q == q;
      assert t[..0] == [] && t[0..] == t;
      assert forall k :: 0 <= k <= |t| && Like(p, t[..k]) ==> k == 0;
    } else {
      var p' := p[1..];
      assert (p + q)[0] == p[0] && (p + q)[1..] == p' + q;
      if p[0] == '%' {
        LikeConcatPercent(p, q, t);
      } else {
        LikeConcatStep(p, q, t);
      }
    }
  }

  lemma {:induction false} LikeConcatStep(p: string, q: string, t: string)
    requires p != [] && p[0] != '%'
    ensures Like(p + q, t) <==> exists k :: 0 <= k <= |t| && Like(p, t[..k]) && Like(q, t[k..])
    decreases |p| + |t|, 0
  {
    var p' := p[1..];
    assert (p + q)[0] == p[0] && (p + q)[1..] == p' + q;
    if t == [] {
      assert forall k :: 0 <= k <= |t| ==> t[..k] == [];
    } else {
      var head := if p[0] == '_' then !IsLineTerminator(t[0]) else SameIgnoringCase(p[0], t[0]);
      assert Like(p + q, t) == (head && Like(p' + q, t[1..]));
      LikeConcat(p', q, t[1..]);
      if Like(p + q, t) {
        var k :| 0 <= k <= |t[1..]| && Like(p', t[1..][..k]) && Like(q, t[1..][k..]);
        assert t[..k + 1][1..] == t[1..][..k];
        assert t[k + 1..] == t[1..][k..];
      }
      if exists k :: 0 <= k <= |t| && Like(p, t[..k]) && Like(q, t[k..]) {
        var k :| 0 <= k <= |t| && Like(p, t[..k]) && Like(q, t[k..]);
        assert k > 0;
        assert t[..k][0] == t[0];
        assert t[..k][1..] == t[1..][..k - 1];
        assert t[k..] == t[1..][k - 1..];
      }
    }
  }

  lemma {:induction false} LikeConcatPercent(p: string, q: string, t: string)
    requires p != [] && p[0] == '%'
    ensures Like(p + q, t) <==> exists k :: 0 <= k <= |t| && Like(p, t[..k]) && Like(q, t[k..])
    decreases |p| + |t|, 0
  {
    var p' := p[1..];
    assert (p + q)[0] == p[0] && (p + q)[1..] == p' + q;
    LikeConcat(p', q, t);
    var moves := t != [] && !IsLineTerminator(t[0]);
    assert Like(p + q, t) == (Like(p' + q, t) || (moves && Like(p + q, t[1..])));
    if moves {
      LikeConcat(p, q, t[1..]);
    }
    if Like(p + q, t) {
      PercentSplitFound(p, q, t);
    }
    if exists k :: 0 <= k <= |t| && Like(p, t[..k]) && Like(q, t[k..]) {
      PercentSplitUsed(p, q, t);
    }
  }

  /** A match of `%p'q` yields a split point, given the split property for the two smaller matches. */
  lemma PercentSplitFound(p: string, q: string, t: string)
    requires p != [] && p[0] == '%'
    requires Like(p + q, t) == (Like(p[1..] + q, t) || (t != [] && !IsLineTerminator(t[0]) && Like(p + q, t[1..])))
    requires Like(p + q, t)
    requires Like(p[1..] + q, t) <==> exists k :: 0 <= k <= |t| && Like(p[1..], t[..k]) && Like(q, t[k..])
    requires t != [] && !IsLineTerminator(t[0]) ==>
      (Like(p + q, t[1..]) <==> exists k :: 0 <= k <= |t[1..]| && Like(p, t[1..][..k]) && Like(q, t[1..][k..]))
    ensures exists k :: 0 <= k <= |t| && Like(p, t[..k]) && Like(q, t[k..])
  {
    if Like(p[1..] + q, t) {
      var k :| 0 <= k <= |t| && Like(p[1..], t[..k]) && Like(q, t[k..]);
      assert Like(p, t[..k]);
    } else {
      var k :| 0 <= k <= |t[1..]| && Like(p, t[1..][..k]) && Like(q, t[1..][k..]);
      assert t[..k + 1][1..] == t[1..][..k];
      assert t[k + 1..] == t[1..][k..];
      assert Like(p, t[..k + 1]);
    }
  }

  /** A split point for `%p'` and q yields a match of the concatenation, given the smaller cases. */
  lemma PercentSplitUsed(p: string, q: string, t: string)
    requires p != [] && p[0] == '%'
    requires Like(p + q, t) == (Like(p[1..] + q, t) || (t != [] && !IsLineTerminator(t[0]) && Like(p + q, t[1..])))
    requires exists k :: 0 <= k <= |t| && Like(p, t[..k]) && Like(q, t[k..])
    requires Like(p[1..] + q, t) <==> exists k :: 0 <= k <= |t| && Like(p[1..], t[..k]) && Like(q, t[k..])
    requires t != [] && !IsLineTerminator(t[0]) ==>
      (Like(p + q, t[1..]) <==> exists k :: 0 <= k <= |t[1..]| && Like(p, t[1..][..k]) && Like(q, t[1..][k..]))
    ensures Like(p + q, t)
  {
    var k :| 0 <= k <= |t| && Like(p, t[..k]) && Like(q, t[k..]);
    if !Like(p[1..], t[..k]) {
      assert k > 0 && t[..k][0] == t[0];
      assert t[..k][1..] == t[1..][..k - 1];
      assert t[k..] == t[1..][k - 1..];
    }
  }

  /** `%` alone matches exactly the texts without a line terminator. */
  lemma {:induction false} LikePercent(t: string)
    ensures Like("%", t) <==> NoLineTerminator(t)
    decreases |t|
  {
    assert "%"[1..] == [];
    if t != [] {
      LikePercent(t[1..]);
      assert NoLineTerminator(t) <==> !IsLineTerminator(t[0]) && NoLineTerminator(t[1..]);
    }
  }

  /** A pattern with no wildcard matches the texts equal to it up to case. */
  lemma {:induction false} LikeLiteral(p: string, t: string)
    requires '%' !in p && '_' !in p
    ensures Like(p, t) <==> |p| == |t| && forall i :: 0 <= i < |p| ==> SameIgnoringCase(p[i], t[i])
  {
    if p != [] && t != [] {
      LikeLiteral(p[1..], t[1..]);
      assert forall i :: 1 <= i < |p| ==> p[i] == p[1..][i - 1];
      if |p| == |t| {
        assert forall i :: 1 <= i < |p| ==> t[i] == t[1..][i - 1];
      }
    }
  }

  /** `X%` matches the texts that start with X regardless of case. */
  lemma LikePrefixPercent(c: char, t: string)
    requires c != '%' && c != '_'
    ensures Like([c] + "%", t) <==> |t| >= 1 && SameIgnoringCase(c, t[0]) && NoLineTerminator(t[1..])
  {
    assert ([c] + "%")[0] == c && ([c] + "%")[1..] == "%";
    if t != [] {
      LikePercent(t[1..]);
    }
  }

  /** `X_Y` matches exactly the three-character texts X?Y, for any middle character but a line terminator. */
  lemma LikeUnderscoreInside(a: char, b: char, t: string)
    requires a != '%' && a != '_' && b != '%' && b != '_'
    ensures Like([a, '_', b], t) <==>
      |t| == 3 && SameIgnoringCase(a, t[0]) && !IsLineTerminator(t[1]) && SameIgnoringCase(b, t[2])
  {
    var p := [a, '_', b];
    assert p[0] == a && p[1..] == ['_', b];
    assert ['_', b][0] == '_' && ['_', b][1..] == [b];
    assert [b][0] == b && [b][1..] == [];
    if t == [] {
      assert !Like(p, t);
    } else if |t| == 1 {
      assert t[1..] == [];
      assert !Like(['_', b], t[1..]);
    } else if |t| == 2 {
      assert t[1..][1..] == [];
      assert !Like([b], t[1..][1..]);
    } else {
      assert t[1..][0] == t[1] && t[1..][1..] == t[2..];
      assert t[2..][0] == t[2] && t[2..][1..] == t[3..];
      assert Like([b], t[2..]) <==> SameIgnoringCase(b, t[2]) && Like([], t[3..]);
      assert Like(['_', b], t[1..]) <==> !IsLineTerminator(t[1]) && Like([b], t[2..]);
      assert Like(p, t) <==> SameIgnoringCase(a, t[0]) && Like(['_', b], t[1..]);
      assert Like([], t[3..]) <==> |t| == 3;
    }
  }

  // ---- Comparisons ----

  lemma NoSpaceInLiteral(a: string)
    requires IsIntLiteral(a)
    ensures TrimStart(a) == a && Trim(a) == a
  {
    assert !IsSpace(a[0]);
    assert IsDigit(a[|a| - 1]) && !IsSpace(a[|a| - 1]);
  }

  /** A side written as an integer literal converts to that integer. */
  lemma ConvertIntLiteral(a: string)
    requires IsIntLiteral(a)
    ensures Convert(Str(a)) == Num(Finite(LiteralValue(a)))
  {
    NoSpaceInLiteral(a);
    assert TextToNumber(a) == Finite(LiteralValue(a));
    var (sign, body) := SignAndBody(a);
    assert AllDigits(body) && |body| > 0 && body[0] != 'I';
    DigitRunAll(body);
    assert body[..|body|] == body;
    ParseFloatAgreesWithParseInt(a);
  }

  /** Two numeric sides compare as numbers: "007" = "7" holds and "10" > "9" holds. */
  lemma NumericSidesCompareAsNumbers(row: Row, field: string, a: string, op: string, lit: string)
    requires Get(row, field) == Str(a) && IsIntLiteral(a) && IsIntLiteral(lit)
    requires IsSupported(op) && op != "LIKE"
    ensures Evaluate(row, Clause(field, op, lit)) ==
      Ok(NumericOutcome(op, LiteralValue(a), LiteralValue(lit)))
  {
    ConvertIntLiteral(a);
    ConvertIntLiteral(lit);
    var x, y := LiteralValue(a), LiteralValue(lit);
    assert Evaluate(row, Clause(field, op, lit)) == Compare(op, Num(Finite(x)), Num(Finite(y)));
    CompareNumbers(op, x, y);
  }

  /** The six comparisons on two finite numbers. */
  lemma CompareNumbers(op: string, x: int, y: int)
    requires IsSupported(op) && op != "LIKE"
    ensures Compare(op, Num(Finite(x)), Num(Finite(y))) == Ok(NumericOutcome(op, x, y))
  {
  }

  /** A text that does not read as a number, against a finite number: only `!=` holds. */
  lemma CompareTextNumber(op: string, s: string, y: int)
    requires IsSupported(op) && op != "LIKE" && IsNaN(Str(s))
    ensures Compare(op, Str(s), Num(Finite(y))) == Ok(op == "!=")
  {
  }

  /** A finite number against a text that does not read as a number: only `!=` holds. */
  lemma CompareNumberText(op: string, y: int, s: string)
    requires IsSupported(op) && op != "LIKE" && IsNaN(Str(s))
    ensures Compare(op, Num(Finite(y)), Str(s)) == Ok(op == "!=")
  {
  }

  /** The comparison an operator denotes on two integers. */
  predicate NumericOutcome(op: string, x: int, y: int) {
    match op
    case "=" => x == y
    case "!=" => x != y
    case ">" => x > y
    case "<" => x < y
    case ">=" => x >= y
    case _ => x <= y
  }

  /**
   * A text side that does not read as a number against a numeric literal:
   * `=` never holds, `!=` always holds, and no ordering comparison holds.
   */
  lemma TextSideAgainstNumber(row: Row, field: string, op: string, lit: string)
    requires Get(row, field).Str? && IsNaN(Get(row, field)) && IsIntLiteral(lit)
    requires IsSupported(op) && op != "LIKE"
    ensures Evaluate(row, Clause(field, op, lit)) == Ok(op == "!=")
  {
    ConvertIntLiteral(lit);
    var s := Get(row, field).s;
    assert Evaluate(row, Clause(field, op, lit)) == Compare(op, Str(s), Num(Finite(LiteralValue(lit))));
    CompareTextNumber(op, s, LiteralValue(lit));
  }

  /**
   * A numeric side against a literal that does not read as a number: the
   * numeric side is converted and the literal is not, so again only `!=` holds.
   */
  lemma NumberSideAgainstText(row: Row, field: string, a: string, op: string, lit: string)
    requires Get(row, field) == Str(a) && IsIntLiteral(a) && IsNaN(Str(lit))
    requires IsSupported(op) && op != "LIKE"
    ensures Evaluate(row, Clause(field, op, lit)) == Ok(op == "!=")
  {
    ConvertIntLiteral(a);
    var x := LiteralValue(a);
    assert Evaluate(row, Clause(field, op, lit)) == Compare(op, Num(Finite(x)), Str(lit));
    CompareNumberText(op, x, lit);
  }

  /** Two text sides compare by code units, whatever digits they hold. */
  lemma TextSidesCompareAsText(row: Row, field: string, lit: string)
    requires Get(row, field).Str? && IsNaN(Get(row, field)) && IsNaN(Str(lit))
    ensures Evaluate(row, Clause(field, "=", lit)) == Ok(Get(row, field).s == lit)
    ensures Evaluate(row, Clause(field, "<", lit)) == Ok(LexLess(Get(row, field).s, lit))
    ensures Evaluate(row, Clause(field, ">", lit)) == Ok(LexLess(lit, Get(row, field).s))
  {
    var s := Get(row, field).s;
    assert Convert(Get(row, field)) == Str(s) && Convert(Str(lit)) == Str(lit);
    assert Evaluate(row, Clause(field, "=", lit)) == Compare("=", Str(s), Str(lit));
    assert Evaluate(row, Clause(field, "<", lit)) == Compare("<", Str(s), Str(lit));
    assert Evaluate(row, Clause(field, ">", lit)) == Compare(">", Str(s), Str(lit));
    CompareTexts(s, lit);
  }

  /** Two texts: `=` is equality, `<` and `>` are code-unit order. */
  lemma CompareTexts(s: string, t: string)
    ensures Compare("=", Str(s), Str(t)) == Ok(s == t)
    ensures Compare("<", Str(s), Str(t)) == Ok(LexLess(s, t))
    ensures Compare(">", Str(s), Str(t)) == Ok(LexLess(t, s))
  {
  }

  /** Only the first deciding clause is consulted: a later unsupported operator is not reported. */
  lemma ShortCircuit(row: Row, first: Clause, later: seq<Clause>)
    requires Evaluate(row, first) == Ok(false)
    ensures EvaluateAll(row, [first] + later) == Ok(false)
  {
    assert Outcomes(row, [first] + later)[0] == Ok(false);
  }

  // ---- Filtering ----

  /** With no clauses every row passes the conjunction, so a "not every" filter would keep nothing. */
  lemma FilterNoClauses(rows: seq<Row>)
    ensures FilterBy(rows, [], true) == Ok(rows)
    ensures FilterBy(rows, [], false) == Ok([])
  {
    FilterAllKept(rows, [], true);
    FilterNoneKept(rows, [], false);
  }

  /** Rows that all have the wanted outcome are all kept, in order. */
  lemma FilterAllKept(rows: seq<Row>, clauses: seq<Clause>, keepWhen: bool)
    requires forall i :: 0 <= i < |rows| ==> EvaluateAll(rows[i], clauses) == Ok(keepWhen)
    ensures FilterBy(rows, clauses, keepWhen) == Ok(rows)
  {
    OutcomesAllKept(rows, RowOutcomes(rows, clauses), keepWhen);
  }

  lemma {:induction false} OutcomesAllKept(rows: seq<Row>, outcomes: seq<Result<bool, Error>>, keepWhen: bool)
    requires |outcomes| == |rows| && forall i :: 0 <= i < |rows| ==> outcomes[i] == Ok(keepWhen)
    ensures FilterOutcomes(rows, outcomes, keepWhen) == Ok(rows)
  {
    if rows != [] {
      OutcomesAllKept(rows[1..], outcomes[1..], keepWhen);
      assert rows == [rows[0]] + rows[1..];
    }
  }

  /** Rows that all have the other outcome are all dropped. */
  lemma FilterNoneKept(rows: seq<Row>, clauses: seq<Clause>, keepWhen: bool)
    requires forall i :: 0 <= i < |rows| ==> EvaluateAll(rows[i], clauses) == Ok(!keepWhen)
    ensures FilterBy(rows, clauses, keepWhen) == Ok([])
  {
    OutcomesNoneKept(rows, RowOutcomes(rows, clauses), keepWhen);
  }

  lemma {:induction false} OutcomesNoneKept(rows: seq<Row>, outcomes: seq<Result<bool, Error>>, keepWhen: bool)
    requires |outcomes| == |rows| && forall i :: 0 <= i < |rows| ==> outcomes[i] == Ok(!keepWhen)
    ensures FilterOutcomes(rows, outcomes, keepWhen) == Ok([])
  {
    if rows != [] {
      OutcomesNoneKept(rows[1..], outcomes[1..], keepWhen);
    }
  }
}
