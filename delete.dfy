/**
 * DELETE: between loading the table and writing it back, the rows for which
 * not every clause holds are kept. With no clauses there is no filtering at
 * all, so the table is written back unchanged.
 */
module Delete {
  import opened Wrappers
  import opened JsText
  import opened JsValues
  import opened Seqs
  import opened Condition

  /** The rows DELETE writes back, or the error the clause evaluation raises. */
  function ExecuteDelete(data: seq<Row>, clauses: seq<Clause>): (r: Result<seq<Row>, Error>)
    ensures clauses == [] ==> r == Ok(data)
    ensures r.Ok? ==> IsSubsequence(r.value, data)
    ensures r.Ok? && clauses != [] ==>
      forall x :: x in r.value <==> x in data && EvaluateAll(x, clauses) == Ok(false)
    ensures r.Ok? && clauses != [] ==>
      forall x :: multiset(r.value)[x] == if EvaluateAll(x, clauses) == Ok(false) then multiset(data)[x] else 0
    ensures r.Failure? <==> exists i :: 0 <= i < |data| && EvaluateAll(data[i], clauses).Failure?
    ensures r.Failure? ==> exists i :: 0 <= i < |data| && EvaluateAll(data[i], clauses) == Failure(r.error)
  {
    if |clauses| > 0 then
      KeptCountByClauses(data, clauses, false);
      FilterBy(data, clauses, false)
    else
      SubsequenceReflexive(data);
      Ok(data)
  }

  /** Deleting again with the same clauses removes nothing more. */
  lemma DeleteIdempotent(data: seq<Row>, clauses: seq<Clause>)
    requires ExecuteDelete(data, clauses).Ok?
    ensures ExecuteDelete(ExecuteDelete(data, clauses).value, clauses) == ExecuteDelete(data, clauses)
  {
    var kept := ExecuteDelete(data, clauses).value;
    if clauses != [] {
      assert forall i :: 0 <= i < |kept| ==> kept[i] in kept;
      FilterAllKept(kept, clauses, false);
    }
  }

  /**
   * Without the guard on an empty clause list, `!every` would be false for
   * every row and the whole table would be deleted; the guard keeps it.
   */
  lemma NoClausesKeepsEveryRow(data: seq<Row>)
    ensures ExecuteDelete(data, []) == Ok(data)
    ensures FilterBy(data, [], false) == Ok([])
  {
    FilterNoClauses(data);
  }

  /** `DELETE ... WHERE age > 30` keeps a row whose age is text that does not read as a number. */
  lemma NonNumericAgeSurvives(data: seq<Row>, row: Row, lit: string)
    requires row in data && Get(row, "age").Str? && IsNaN(Get(row, "age")) && IsIntLiteral(lit)
    requires ExecuteDelete(data, [Clause("age", ">", lit)]).Ok?
    ensures row in ExecuteDelete(data, [Clause("age", ">", lit)]).value
  {
    TextSideAgainstNumber(row, "age", ">", lit);
    assert Outcomes(row, [Clause("age", ">", lit)])[0] == Ok(false);
  }

  /** A clause with an operator outside the supported set fails as soon as any row is tested. */
  lemma UnsupportedOperatorRaised(data: seq<Row>, field: string, op: string, lit: string)
    requires data != [] && !IsSupported(op)
    ensures ExecuteDelete(data, [Clause(field, op, lit)]) == Failure(UnsupportedOperator(op))
  {
    var c := [Clause(field, op, lit)];
    assert Outcomes(data[0], c)[0] == Failure(UnsupportedOperator(op));
    assert forall i :: 0 <= i < |data| ==> EvaluateAll(data[i], c) == Failure(UnsupportedOperator(op));
  }
}
