/**
 * The rows of the test's solution table that belong to accounting
 * questions, held in memory. The question's delete and lookup statements
 * are filters over these rows, read from their `WHERE` clauses; every one
 * of them leaves out the `accqst_vars` row, so the variable values stored
 * for a learner outlive the clear-and-rewrite of a new submission.
 */
module SolutionTable {
  import opened Wrappers
  import opened OrderedMap
  import opened SolutionCodec

  /**
   * One row: learner (`active_fi`), question, pass, step (SQL NULL as
   * `None`), whether it is the authorized solution, and the key/value pair
   * `value1`/`value2` (either may be NULL).
   */
  datatype Row = Row(active: int, question: int, pass: int, step: Option<int>, authorized: bool,
                     value1: Option<string>, value2: Option<string>)

  /**
   * `value1 <> 'accqst_vars'` under SQL's three-valued logic: a NULL
   * `value1` makes the comparison unknown, so such a row is not selected.
   */
  predicate NotVars(r: Row) {
    r.value1.Some? && r.value1.value != VarsKey
  }

  /** The rows `getStep()` restricts to: all rows without a step, the rows with that step otherwise (a NULL step never equals). */
  predicate InStep(r: Row, step: Option<int>) {
    step.Some? ==> r.step == step
  }

  /** The `WHERE` clause of `removeExistingSolutions` and `lookupForExistingSolutions`. */
  predicate ExistingMatch(r: Row, active: int, question: int, pass: int, step: Option<int>) {
    r.active == active && r.question == question && r.pass == pass && InStep(r, step) && NotVars(r)
  }

  /** The `WHERE` clause of `removeCurrentSolution`: the same, restricted to one of authorized or intermediate. */
  predicate CurrentMatch(r: Row, active: int, question: int, pass: int, step: Option<int>, authorized: bool) {
    ExistingMatch(r, active, question, pass, step) && r.authorized == authorized
  }

  /** The rows a `DELETE` leaves: those the condition does not select, in their order. */
  function Keep(rows: seq<Row>, selected: Row -> bool): seq<Row> {
    if rows == [] then []
    else Keep(rows[..|rows| - 1], selected) + (if selected(rows[|rows| - 1]) then [] else [rows[|rows| - 1]])
  }

  /** The number of rows the condition selects (`COUNT(*)`). */
  function CountWhere(rows: seq<Row>, selected: Row -> bool): nat {
    if rows == [] then 0
    else CountWhere(rows[..|rows| - 1], selected) + (if selected(rows[|rows| - 1]) then 1 else 0)
  }

  /**
   * A `DELETE` removes exactly the selected rows: a row is left exactly
   * when it was there and is not selected, and the rows left and the rows
   * counted make up the table.
   */
  lemma {:induction false} KeepExactly(rows: seq<Row>, selected: Row -> bool)
    ensures forall r :: r in Keep(rows, selected) <==> r in rows && !selected(r)
    ensures |Keep(rows, selected)| + CountWhere(rows, selected) == |rows|
    decreases |rows|
  {
    if rows != [] {
      var front := rows[..|rows| - 1];
      KeepExactly(front, selected);
      assert rows == front + [rows[|rows| - 1]];
    }
  }

  /** Deleting a second time deletes nothing more. */
  lemma {:induction false} KeepIdempotent(rows: seq<Row>, selected: Row -> bool)
    ensures Keep(Keep(rows, selected), selected) == Keep(rows, selected)
    decreases |rows|
  {
    if rows != [] {
      var front := rows[..|rows| - 1];
      var last := rows[|rows| - 1];
      KeepIdempotent(front, selected);
      var k := Keep(front, selected);
      if selected(last) {
        assert Keep(rows, selected) == k + [] == k;
      } else {
        assert (k + [last])[..|k|] == k && (k + [last])[|k|] == last;
      }
    }
  }

  /** A count is positive exactly when some row is selected. */
  lemma {:induction false} CountPositive(rows: seq<Row>, selected: Row -> bool)
    ensures CountWhere(rows, selected) > 0 <==> exists i :: 0 <= i < |rows| && selected(rows[i])
    decreases |rows|
  {
    if rows != [] {
      var front := rows[..|rows| - 1];
      CountPositive(front, selected);
      assert forall i :: 0 <= i < |front| ==> front[i] == rows[i];
      if CountWhere(front, selected) > 0 {
        var i :| 0 <= i < |front| && selected(front[i]);
        assert selected(rows[i]);
      }
    }
  }

  /** The rows `saveCurrentSolution` writes for a solution, one per entry, in entry order. */
  function SolutionRows(solution: Assoc, active: int, question: int, pass: int, step: Option<int>, authorized: bool): (rs: seq<Row>)
    ensures |rs| == |solution|
  {
    seq(|solution|, i requires 0 <= i < |solution| =>
      Row(active, question, pass, step, authorized, Some(solution[i].0), Some(solution[i].1)))
  }

  /** The table after the body of the `saveWorkingData` lock: the current solution removed, then the entries written. */
  function Saved(rows: seq<Row>, solution: Assoc, active: int, question: int, pass: int, step: Option<int>, authorized: bool): seq<Row> {
    Keep(rows, r => CurrentMatch(r, active, question, pass, step, authorized))
      + SolutionRows(solution, active, question, pass, step, authorized)
  }

  /**
   * Resubmission keeps the stored variables: every `accqst_vars` row of
   * the table, and every row of another learner, pass or state, is still
   * there after a submission is saved.
   */
  lemma {:induction false} StoredVariablesSurvive(rows: seq<Row>, solution: Assoc, active: int, question: int, pass: int, step: Option<int>, authorized: bool)
    ensures forall r :: r in rows && (r.value1 == Some(VarsKey) || !CurrentMatch(r, active, question, pass, step, authorized))
                        ==> r in Saved(rows, solution, active, question, pass, step, authorized)
  {
    KeepExactly(rows, r => CurrentMatch(r, active, question, pass, step, authorized));
  }

  /**
   * After a save, the rows of the saved state that a new save would
   * remove are exactly the written entries other than `accqst_vars`.
   */
  lemma {:induction false} SaveReplacesCurrent(rows: seq<Row>, solution: Assoc, active: int, question: int, pass: int, step: Option<int>, authorized: bool)
    ensures forall r :: r in Saved(rows, solution, active, question, pass, step, authorized) && CurrentMatch(r, active, question, pass, step, authorized)
                        <==> r in SolutionRows(solution, active, question, pass, step, authorized) && NotVars(r)
  {
    var written := SolutionRows(solution, active, question, pass, step, authorized);
    KeepExactly(rows, r => CurrentMatch(r, active, question, pass, step, authorized));
    assert forall r :: r in written ==> CurrentMatch(r, active, question, pass, step, authorized) == NotVars(r) by {
      forall r | r in written ensures CurrentMatch(r, active, question, pass, step, authorized) == NotVars(r) {
        var i :| 0 <= i < |written| && written[i] == r;
        if step.Some? {
          assert r.step == step;
        }
      }
    }
  }

  // ---------------------------------------------------------------------
  // Reading a solution back (`getSolutionStored`)

  /** The solution the selected rows give: each row with a `value1` sets that key, NULL `value2` read as `''`, later rows overwriting earlier ones. */
  function StoredSolution(rows: seq<Row>): Assoc {
    if rows == [] then []
    else
      var front := StoredSolution(rows[..|rows| - 1]);
      var r := rows[|rows| - 1];
      if r.value1.Some? then Put(front, r.value1.value, r.value2.UnwrapOr("")) else front
  }

  /** Reading rows back gives an array: its keys are distinct. */
  lemma {:induction false} StoredDistinct(rows: seq<Row>)
    ensures DistinctKeys(StoredSolution(rows))
    decreases |rows|
  {
    if rows != [] {
      var r := rows[|rows| - 1];
      StoredDistinct(rows[..|rows| - 1]);
      if r.value1.Some? {
        PutDistinct(StoredSolution(rows[..|rows| - 1]), r.value1.value, r.value2.UnwrapOr(""));
      }
    }
  }

  /** A key that no row carries is absent from the solution. */
  lemma {:induction false} StoredAbsent(rows: seq<Row>, k: string)
    requires forall i :: 0 <= i < |rows| ==> rows[i].value1 != Some(k)
    ensures Get(StoredSolution(rows), k) == None
    decreases |rows|
  {
    if rows != [] {
      var front := rows[..|rows| - 1];
      var r := rows[|rows| - 1];
      assert forall i :: 0 <= i < |front| ==> front[i] == rows[i];
      StoredAbsent(front, k);
      if r.value1.Some? {
        GetPut(StoredSolution(front), r.value1.value, r.value2.UnwrapOr(""), k);
      }
    }
  }

  /** A key holds the value of the last row that carries it: later rows overwrite earlier ones. */
  lemma {:induction false} StoredLastRowWins(rows: seq<Row>, k: string, i: nat)
    requires i < |rows| && rows[i].value1 == Some(k)
    requires forall j :: i < j < |rows| ==> rows[j].value1 != Some(k)
    ensures Get(StoredSolution(rows), k) == Some(rows[i].value2.UnwrapOr(""))
    decreases |rows|
  {
    var front := rows[..|rows| - 1];
    var r := rows[|rows| - 1];
    if i < |rows| - 1 {
      assert forall j :: i < j < |front| ==> front[j] == rows[j];
      StoredLastRowWins(front, k, i);
    }
    if r.value1.Some? {
      GetPut(StoredSolution(front), r.value1.value, r.value2.UnwrapOr(""), k);
    }
  }

  // ---------------------------------------------------------------------
  // The table

  class Table {
    var rows: seq<Row>

    constructor(rows: seq<Row>)
      ensures this.rows == rows
    {
      this.rows := rows;
    }

    /** `removeCurrentSolution`: deletes the learner's current rows except `accqst_vars` and reports how many went. */
    method RemoveCurrentSolution(active: int, question: int, pass: int, step: Option<int>, authorized: bool) returns (deleted: nat)
      modifies this
      ensures rows == Keep(old(rows), r => CurrentMatch(r, active, question, pass, step, authorized))
      ensures deleted == CountWhere(old(rows), r => CurrentMatch(r, active, question, pass, step, authorized))
    {
      var selected := r => CurrentMatch(r, active, question, pass, step, authorized);
      var kept: seq<Row> := [];
      deleted := 0;
      for i := 0 to |rows|
        invariant kept == Keep(rows[..i], selected)
        invariant deleted == CountWhere(rows[..i], selected)
      {
        assert rows[..i + 1][..i] == rows[..i];
        if selected(rows[i]) {
          deleted := deleted + 1;
        } else {
          kept := kept + [rows[i]];
        }
      }
      assert rows[..|rows|] == rows;
      rows := kept;
    }

    /** `removeExistingSolutions`: the same for both the authorized and the intermediate rows. */
    method RemoveExistingSolutions(active: int, question: int, pass: int, step: Option<int>) returns (deleted: nat)
      modifies this
      ensures rows == Keep(old(rows), r => ExistingMatch(r, active, question, pass, step))
      ensures deleted == CountWhere(old(rows), r => ExistingMatch(r, active, question, pass, step))
    {
      var selected := r => ExistingMatch(r, active, question, pass, step);
      var kept: seq<Row> := [];
      deleted := 0;
      for i := 0 to |rows|
        invariant kept == Keep(rows[..i], selected)
        invariant deleted == CountWhere(rows[..i], selected)
      {
        assert rows[..i + 1][..i] == rows[..i];
        if selected(rows[i]) {
          deleted := deleted + 1;
        } else {
          kept := kept + [rows[i]];
        }
      }
      assert rows[..|rows|] == rows;
      rows := kept;
    }

    /**
     * `lookupForExistingSolutions`: whether the learner has an authorized
     * and whether an intermediate solution, counting only rows other than
     * `accqst_vars`.
     */
    method LookupForExistingSolutions(active: int, question: int, pass: int, step: Option<int>)
      returns (authorized: bool, intermediate: bool)
      ensures authorized <==> exists i :: 0 <= i < |rows| && ExistingMatch(rows[i], active, question, pass, step) && rows[i].authorized
      ensures intermediate <==> exists i :: 0 <= i < |rows| && ExistingMatch(rows[i], active, question, pass, step) && !rows[i].authorized
    {
      var isAuthorized := r => ExistingMatch(r, active, question, pass, step) && r.authorized;
      var isIntermediate := r => ExistingMatch(r, active, question, pass, step) && !r.authorized;
      var authorizedCount, intermediateCount := 0, 0;
      for i := 0 to |rows|
        invariant authorizedCount == CountWhere(rows[..i], isAuthorized)
        invariant intermediateCount == CountWhere(rows[..i], isIntermediate)
      {
        assert rows[..i + 1][..i] == rows[..i];
        if ExistingMatch(rows[i], active, question, pass, step) {
          if rows[i].authorized {
            authorizedCount := authorizedCount + 1;
          } else {
            intermediateCount := intermediateCount + 1;
          }
        }
      }
      assert rows[..|rows|] == rows;
      CountPositive(rows, isAuthorized);
      CountPositive(rows, isIntermediate);
      authorized := authorizedCount > 0;
      intermediate := intermediateCount > 0;
    }

    /** The body of the lock in `saveWorkingData`: remove the current solution, then write each entry of the new one. */
    method SaveSolution(solution: Assoc, active: int, question: int, pass: int, step: Option<int>, authorized: bool)
      modifies this
      ensures rows == Saved(old(rows), solution, active, question, pass, step, authorized)
    {
      var _ := RemoveCurrentSolution(active, question, pass, step, authorized);
      ghost var base := rows;
      for i := 0 to |solution|
        invariant rows == base + SolutionRows(solution, active, question, pass, step, authorized)[..i]
      {
        rows := rows + [Row(active, question, pass, step, authorized, Some(solution[i].0), Some(solution[i].1))];
      }
      assert SolutionRows(solution, active, question, pass, step, authorized)[..|solution|]
        == SolutionRows(solution, active, question, pass, step, authorized);
    }
  }
}
