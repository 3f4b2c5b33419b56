/**
 * The variable engine: the question's random variables, the substitution
 * of `{name}` tokens in texts, the calculation run that stops at the first
 * variable that cannot be calculated, and the name-to-value map that is
 * stored with a learner's solution.
 */
module Variables {
  import opened Strings

  /** A random variable: its name (its key in the question's list) and its current value. */
  datatype Variable = Variable(name: string, value: real)

  /** The three renderings of a variable's value (`getNumeric`, `getDisplay`, `getString`). */
  datatype Rendering = Numeric | Display | Default

  const SubNumeric := "numeric"
  const SubDisplay := "display"
  const SubDefault := "default"

  /** The rendering a substitution mode selects; an unknown mode falls back to the default string. */
  function RenderingFor(mode: string): Rendering {
    if mode == SubNumeric then Numeric
    else if mode == SubDisplay then Display
    else Default
  }

  /** The token that refers to a variable in a text. */
  function Token(name: string): string {
    "{" + name + "}"
  }

  /** Names of a variable list, in order. */
  predicate DistinctNames(vars: seq<Variable>) {
    forall i, j :: 0 <= i < j < |vars| ==> vars[i].name != vars[j].name
  }

  // ---------------------------------------------------------------------
  // Substitution

  /** What one pass of the loop in `substituteVariables` does with one variable. */
  function SubstituteOne(v: Variable, s: string, mode: string, render: (Variable, Rendering) -> string): string {
    var pattern := Token(v.name);
    if IndexOf(s, pattern) >= 0 then ReplaceAll(s, pattern, render(v, RenderingFor(mode))) else s
  }

  /** The text after the variables, in list order, have each been substituted once. */
  function Substitute(vars: seq<Variable>, s: string, mode: string, render: (Variable, Rendering) -> string): string {
    if vars == [] then s
    else SubstituteOne(vars[|vars| - 1], Substitute(vars[..|vars| - 1], s, mode, render), mode, render)
  }

  /** A text with no token of any listed variable comes back unchanged; in particular substituting again is a no-op then. */
  lemma {:induction false} SubstituteWithoutTokens(vars: seq<Variable>, s: string, mode: string, render: (Variable, Rendering) -> string)
    requires forall i :: 0 <= i < |vars| ==> !Contains(s, Token(vars[i].name))
    ensures Substitute(vars, s, mode, render) == s
    decreases |vars|
  {
    if vars != [] {
      SubstituteWithoutTokens(vars[..|vars| - 1], s, mode, render);
      assert IndexOf(s, Token(vars[|vars| - 1].name)) < 0;
    }
  }

  /** The variables are processed one after the other: substituting a concatenated list is substituting its parts in turn. */
  lemma {:induction false} SubstituteConcat(a: seq<Variable>, b: seq<Variable>, s: string, mode: string, render: (Variable, Rendering) -> string)
    ensures Substitute(a + b, s, mode, render) == Substitute(b, Substitute(a, s, mode, render), mode, render)
    decreases |b|
  {
    if b == [] {
      assert a + b == a;
    } else {
      assert (a + b)[..|a + b| - 1] == a + b[..|b| - 1];
      assert (a + b)[|a + b| - 1] == b[|b| - 1];
      SubstituteConcat(a, b[..|b| - 1], s, mode, render);
    }
  }

  /** A mode other than `numeric` and `display` renders like `default`. */
  lemma {:induction false} UnknownModeIsDefault(vars: seq<Variable>, s: string, mode: string, render: (Variable, Rendering) -> string)
    requires mode != SubNumeric && mode != SubDisplay
    ensures Substitute(vars, s, mode, render) == Substitute(vars, s, SubDefault, render)
    decreases |vars|
  {
    if vars != [] {
      UnknownModeIsDefault(vars[..|vars| - 1], s, mode, render);
    }
  }

  /**
   * When the token of a variable occurs, every occurrence is replaced by
   * the variable's rendering: the result is the text between the
   * occurrences joined by that rendering.
   */
  lemma {:induction false} ReplacesEveryOccurrence(v: Variable, s: string, mode: string, render: (Variable, Rendering) -> string)
    requires Contains(s, Token(v.name))
    ensures SubstituteOne(v, s, mode, render) == Join(Split(s, Token(v.name)), render(v, RenderingFor(mode)))
  {
    ReplaceAllIsJoinOfSplit(s, Token(v.name), render(v, RenderingFor(mode)));
  }

  /**
   * A value inserted for an earlier variable is still rewritten by a later
   * one: with `a` rendered as `{b}` and `b` as `2`, the text `{a}` becomes `2`.
   */
  lemma {:induction false} LaterVariableRewritesEarlierValue()
    ensures Substitute([Variable("a", 1.0), Variable("b", 2.0)], "{a}", SubDisplay,
                       (v: Variable, r: Rendering) => if v.name == "a" then "{b}" else "2") == "2"
  {
    var render := (v: Variable, r: Rendering) => if v.name == "a" then "{b}" else "2";
    var vars := [Variable("a", 1.0), Variable("b", 2.0)];
    assert vars[..1] == [Variable("a", 1.0)] && [Variable("a", 1.0)][..0] == [];
    assert Token("a") == "{a}" && Token("b") == "{b}";
    assert OccursAt("{a}", "{a}", 0);
    assert SubstituteOne(Variable("a", 1.0), "{a}", SubDisplay, render) == "{b}" by {
      assert "{a}"[..3] == "{a}" && "{a}"[3..] == "";
    }
    assert OccursAt("{b}", "{b}", 0);
    assert SubstituteOne(Variable("b", 2.0), "{b}", SubDisplay, render) == "2" by {
      assert "{b}"[..3] == "{b}" && "{b}"[3..] == "";
    }
  }

  // ---------------------------------------------------------------------
  // Calculation

  /** What `calculateValue` of one variable gives: a value, `false`, or an exception with its message. */
  datatype CalcOutcome = Calculated(value: real) | NotCalculated | Failed(message: string)

  /** The question's `analyze_error`: `var_not_calculated` for a named variable, or an exception message. */
  datatype AnalyzeError = NoError | VarNotCalculated(name: string) | Message(text: string)

  /** The end of a calculation run: all variables calculated, or stopped at a variable with an error. */
  datatype CalcRun = Done(vars: seq<Variable>) | Stopped(vars: seq<Variable>, at: nat, error: AnalyzeError)

  /**
   * The loop of `calculateVariables` from position `i` on: each variable's
   * calculation sees the current list (earlier variables already updated)
   * and the run stops at the first one that fails.
   */
  function RunCalculation(vars: seq<Variable>, calculate: (seq<Variable>, nat) -> CalcOutcome, i: nat): CalcRun
    decreases |vars| - i
  {
    if i >= |vars| then Done(vars)
    else match calculate(vars, i)
      case Calculated(x) => RunCalculation(vars[i := vars[i].(value := x)], calculate, i + 1)
      case NotCalculated => Stopped(vars, i, VarNotCalculated(vars[i].name))
      case Failed(msg) => Stopped(vars, i, Message(msg))
  }

  /** The position the run reached: where it stopped, or the end of the list. */
  function Reached(r: CalcRun, n: nat): nat {
    if r.Stopped? then r.at else n
  }

  /**
   * A calculation run keeps the names and the variables before `i`; every
   * variable it passes gets the value its calculation gave on the list as
   * it was at that step; when it stops, it stops at a variable whose
   * calculation failed, names that variable in the error, and leaves that
   * variable and all later ones untouched.
   */
  lemma {:induction false} CalculationStopsAtFirstFailure(vars: seq<Variable>, calculate: (seq<Variable>, nat) -> CalcOutcome, i: nat)
    requires i <= |vars|
    ensures var r := RunCalculation(vars, calculate, i);
      && |r.vars| == |vars|
      && (forall j :: 0 <= j < |vars| ==> r.vars[j].name == vars[j].name)
      && (forall j :: 0 <= j < i ==> r.vars[j] == vars[j])
      && i <= Reached(r, |vars|) <= |vars|
      && (forall j :: Reached(r, |vars|) <= j < |vars| ==> r.vars[j] == vars[j])
      && (forall j :: i <= j < Reached(r, |vars|) ==> calculate(r.vars[..j] + vars[j..], j) == Calculated(r.vars[j].value))
      && (r.Stopped? ==>
            && r.at < |vars|
            && !calculate(r.vars, r.at).Calculated?
            && r.error == (if calculate(r.vars, r.at).NotCalculated? then VarNotCalculated(vars[r.at].name)
                           else Message(calculate(r.vars, r.at).message)))
    decreases |vars| - i
  {
    if i < |vars| && calculate(vars, i).Calculated? {
      var next := vars[i := vars[i].(value := calculate(vars, i).value)];
      CalculationStopsAtFirstFailure(next, calculate, i + 1);
      var r := RunCalculation(next, calculate, i + 1);
      assert r == RunCalculation(vars, calculate, i);
      assert r.vars[..i] + vars[i..] == vars by {
        assert r.vars[..i] == vars[..i];
      }
      forall j | i < j < Reached(r, |vars|)
        ensures calculate(r.vars[..j] + vars[j..], j) == Calculated(r.vars[j].value)
      {
        assert next[j..] == vars[j..];
      }
      assert r.vars[i] == next[i];
    }
  }

  // ---------------------------------------------------------------------
  // Stored values

  /** The name-to-value map `addVariablesToUserSolution` serialises. */
  function ValuesOf(vars: seq<Variable>): map<string, real> {
    if vars == [] then map[]
    else ValuesOf(vars[..|vars| - 1])[vars[|vars| - 1].name := vars[|vars| - 1].value]
  }

  /** Every name of the list is a key of the map, and with distinct names each key holds its variable's value. */
  lemma {:induction false} ValuesOfVariables(vars: seq<Variable>)
    ensures ValuesOf(vars).Keys == set j | 0 <= j < |vars| :: vars[j].name
    ensures DistinctNames(vars) ==> forall j :: 0 <= j < |vars| ==> ValuesOf(vars)[vars[j].name] == vars[j].value
    decreases |vars|
  {
    if vars != [] {
      var front := vars[..|vars| - 1];
      ValuesOfVariables(front);
      assert forall j :: 0 <= j < |front| ==> front[j] == vars[j];
      var names := set j | 0 <= j < |vars| :: vars[j].name;
      var frontNames := set j | 0 <= j < |front| :: front[j].name;
      assert names == frontNames + {vars[|vars| - 1].name} by {
        forall x | x in names ensures x in frontNames + {vars[|vars| - 1].name} {
          var j :| 0 <= j < |vars| && vars[j].name == x;
          if j < |front| { assert front[j].name == x; }
        }
      }
    }
  }

  /** Every variable of the list has a value in `values`. */
  predicate CompleteIn(vars: seq<Variable>, values: map<string, real>) {
    forall j :: 0 <= j < |vars| ==> vars[j].name in values
  }

  /** The list after each variable whose name is in `values` took the stored value. */
  function AssignStored(vars: seq<Variable>, values: map<string, real>): seq<Variable> {
    seq(|vars|, j requires 0 <= j < |vars| =>
      if vars[j].name in values then vars[j].(value := values[vars[j].name]) else vars[j])
  }

  /**
   * Restoring stored values into a list with the same names (in the same
   * order) finds the list complete and gives every variable exactly the
   * value that was stored for it: a resolved variable keeps its value.
   */
  lemma {:induction false} RestoreStoredValues(saved: seq<Variable>, current: seq<Variable>)
    requires DistinctNames(saved) && |saved| == |current|
    requires forall j :: 0 <= j < |saved| ==> saved[j].name == current[j].name
    ensures CompleteIn(current, ValuesOf(saved))
    ensures AssignStored(current, ValuesOf(saved)) == saved
  {
    ValuesOfVariables(saved);
    assert forall j :: 0 <= j < |saved| ==> saved[j].name in ValuesOf(saved).Keys;
  }
}
