/**
 * The accounting question itself: the object whose fields hold the
 * account directory, the random variables, the parts and the maximum
 * points, and whose methods build, decode and grade a learner's solution.
 */
module Question {
  import opened Wrappers
  import opened Strings
  import opened OrderedMap
  import opened Accounts
  import opened Variables
  import opened Parts
  import opened SolutionCodec
  import opened SolutionTable

  /**
   * `$this->parts`: a PHP array of part objects, as (key, part) pairs in
   * array order. Appending uses the next free integer key; `unset` leaves
   * that counter alone.
   */
  type PartTable = seq<(int, Part)>

  /** A prefix one longer is the prefix followed by the next element. */
  lemma {:induction false} PrefixSnoc<T>(s: seq<T>, i: nat)
    requires i < |s|
    ensures s[..i + 1] == s[..i] + [s[i]]
  {
  }

  /** The parts of a table, in array order (`getParts()`). */
  function PartsIn(t: PartTable): (ps: seq<Part>)
    ensures |ps| == |t|
  {
    seq(|t|, i requires 0 <= i < |t| => t[i].1)
  }

  /** The keys of a table are distinct, non-negative and below the next free key. */
  predicate KeysBelow(t: PartTable, next: int) {
    && DistinctTableKeys(t)
    && next >= 0
    && (forall i :: 0 <= i < |t| ==> 0 <= t[i].0 < next)
  }

  /** The key PHP appends under after a table was filled: one above the largest key, 0 for none. */
  function NextFreeKey(t: PartTable): (next: int)
    requires forall i :: 0 <= i < |t| ==> t[i].0 >= 0
    ensures next >= 0 && forall i :: 0 <= i < |t| ==> t[i].0 < next
  {
    if t == [] then 0
    else
      var front := NextFreeKey(t[..|t| - 1]);
      assert forall i :: 0 <= i < |t| - 1 ==> t[..|t| - 1][i] == t[i];
      if t[|t| - 1].0 + 1 > front then t[|t| - 1].0 + 1 else front
  }

  /** `unset($t[$key])`: the pair with that key removed, if there is one. */
  function Unset(t: PartTable, key: int): PartTable {
    if t == [] then []
    else Unset(t[..|t| - 1], key) + (if t[|t| - 1].0 == key then [] else [t[|t| - 1]])
  }

  /** `unset` removes exactly the pair with that key and keeps the others in order. */
  lemma {:induction false} UnsetKeeps(t: PartTable, key: int)
    ensures forall x :: x in Unset(t, key) <==> x in t && x.0 != key
    decreases |t|
  {
    if t != [] {
      var front := t[..|t| - 1];
      UnsetKeeps(front, key);
      assert t == front + [t[|t| - 1]];
    }
  }

  /** Unsetting a key that is not present leaves the table as it is. */
  lemma {:induction false} UnsetAbsent(t: PartTable, key: int)
    requires forall i :: 0 <= i < |t| ==> t[i].0 != key
    ensures Unset(t, key) == t
    decreases |t|
  {
    if t != [] {
      var front := t[..|t| - 1];
      assert forall i :: 0 <= i < |front| ==> front[i] == t[i];
      UnsetAbsent(front, key);
      assert t == front + [t[|t| - 1]];
    }
  }

  /** With distinct keys, unsetting the key of position `k` removes exactly that position. */
  lemma {:induction false} UnsetOwnKey(t: PartTable, k: nat)
    requires k < |t| && DistinctTableKeys(t)
    ensures Unset(t, t[k].0) == t[..k] + t[k + 1..]
    decreases |t|
  {
    var n := |t| - 1;
    var front := t[..n];
    if k == n {
      UnsetAbsent(front, t[k].0);
      assert t[k + 1..] == [];
    } else {
      UnsetOwnKey(front, k);
      assert front[..k] + front[k + 1..] + [t[n]] == t[..k] + t[k + 1..];
    }
  }

  predicate DistinctTableKeys(t: PartTable) {
    forall i, j :: 0 <= i < j < |t| ==> t[i].0 != t[j].0
  }

  /** A pair whose key is not among the keys of a table keeps them distinct when appended. */
  lemma {:induction false} DistinctSnoc(t: PartTable, x: (int, Part))
    requires DistinctTableKeys(t) && forall y :: y in t ==> y.0 != x.0
    ensures DistinctTableKeys(t + [x])
  {
    var u := t + [x];
    forall i, j | 0 <= i < j < |u| ensures u[i].0 != u[j].0 {
      if j == |t| {
        assert u[i] in t;
      } else {
        assert u[i] == t[i] && u[j] == t[j];
      }
    }
  }

  lemma {:induction false} UnsetDistinct(t: PartTable, key: int)
    requires DistinctTableKeys(t)
    ensures DistinctTableKeys(Unset(t, key))
    decreases |t|
  {
    if t != [] {
      var front := t[..|t| - 1];
      var last := t[|t| - 1];
      assert DistinctTableKeys(front) by {
        assert forall i :: 0 <= i < |front| ==> front[i] == t[i];
      }
      UnsetDistinct(front, key);
      if last.0 != key {
        UnsetKeeps(front, key);
        forall y | y in Unset(front, key) ensures y.0 != last.0 {
          var i :| 0 <= i < |front| && front[i] == y;
          assert t[i] == y;
        }
        DistinctSnoc(Unset(front, key), last);
      } else {
        assert Unset(t, key) == Unset(front, key) + [];
      }
    }
  }

  /** Unsetting keeps the keys distinct and below the same bound. */
  lemma {:induction false} UnsetKeysBelow(t: PartTable, key: int, next: int)
    requires KeysBelow(t, next)
    ensures KeysBelow(Unset(t, key), next)
  {
    UnsetKeeps(t, key);
    UnsetDistinct(t, key);
    var u := Unset(t, key);
    forall i | 0 <= i < |u| ensures 0 <= u[i].0 < next {
      assert u[i] in t;
    }
  }

  /** Unsetting the key of the part at position `i` removes exactly that part and keeps the keys in bounds. */
  lemma {:induction false} UnsetFound(t: PartTable, i: nat, next: int)
    requires KeysBelow(t, next) && i < |t|
    ensures Unset(t, t[i].0) == t[..i] + t[i + 1..]
    ensures KeysBelow(Unset(t, t[i].0), next)
  {
    UnsetOwnKey(t, i);
    UnsetKeysBelow(t, t[i].0, next);
  }

  /** The position of the first part with the given id (`getPart`'s search); the length when there is none. */
  function FindPart(ps: seq<Part>, id: int): nat {
    FirstWhere(ps, (p: Part) => p.partId == id)
  }

  /** The position of the first part with the given id whose deletion succeeds (`deletePart`'s search). */
  function DeleteTarget(ps: seq<Part>, id: int, deletes: Part -> bool): nat {
    FirstWhere(ps, (p: Part) => p.partId == id && deletes(p))
  }

  /**
   * `deletePart` as written: it unsets the array key equal to the part
   * id, not the key of the part it found. In a table whose keys are
   * positions, deleting part 7 keeps part 7 and removes the part stored
   * under key 7, although the call reports success.
   */
  lemma {:induction false} DeletePartRemovesWrongEntry()
    ensures var a, b := Part(7, 1, 1.0, ""), Part(9, 1, 1.0, "");
      var t: PartTable := [(0, a), (7, b)];
      && DeleteTarget(PartsIn(t), 7, _ => true) == 0
      && Unset(t, 7) == [(0, a)]
  {
    var a, b := Part(7, 1, 1.0, ""), Part(9, 1, 1.0, "");
    var t: PartTable := [(0, a), (7, b)];
    assert PartsIn(t)[0] == a;
    assert t[..1] == [(0, a)];
    assert t[..1][..0] == [];
    assert Unset(t[..1], 7) == [(0, a)];
  }

  /** The parts after `initVariablesFromUserSolution` substituted the variables into their texts. */
  function SubstitutedParts(t: PartTable, vars: seq<Variable>, render: (Variable, Rendering) -> string): (u: PartTable)
    ensures |u| == |t|
  {
    seq(|t|, i requires 0 <= i < |t| => (t[i].0, t[i].1.(text := Substitute(vars, t[i].1.text, SubDisplay, render))))
  }

  // ---------------------------------------------------------------------
  // Restoring stored variable values

  /** What the external variables parser gives: the variables, or the message of its exception. */
  datatype VariablesParse = ParsedVariables(vars: seq<Variable>) | ParseError(message: string)

  /** The variables after the stored values were applied, and whether the values were complete. */
  datatype Restored = Restored(vars: seq<Variable>, complete: bool)

  /**
   * The loop of `initVariablesFromUserSolution` over the solution: each
   * `accqst_vars` entry is unserialised, its values are assigned, and the
   * completeness flag is whether it named every variable.
   */
  function Restore(vars: seq<Variable>, solution: Assoc, unserialize: string -> map<string, real>): Restored {
    if solution == [] then Restored(vars, false)
    else
      var r := Restore(vars, solution[..|solution| - 1], unserialize);
      var e := solution[|solution| - 1];
      if e.0 == VarsKey then
        var values := unserialize(e.1);
        Restored(AssignStored(r.vars, values), CompleteIn(r.vars, values))
      else r
  }

  /** Restoring keeps the variables' names. */
  lemma {:induction false} RestoreKeepsNames(vars: seq<Variable>, solution: Assoc, unserialize: string -> map<string, real>)
    ensures var r := Restore(vars, solution, unserialize).vars;
      |r| == |vars| && forall j :: 0 <= j < |vars| ==> r[j].name == vars[j].name
    decreases |solution|
  {
    if solution != [] {
      RestoreKeepsNames(vars, solution[..|solution| - 1], unserialize);
    }
  }

  /**
   * For a solution array, the variables are complete exactly when it has
   * an `accqst_vars` entry whose values name every variable; each variable
   * whose name is there takes the stored value, and the others keep
   * theirs. Without the entry nothing changes.
   */
  lemma {:induction false} RestoreFromVarsEntry(vars: seq<Variable>, solution: Assoc, unserialize: string -> map<string, real>)
    requires DistinctKeys(solution)
    ensures Restore(vars, solution, unserialize) ==
      match Get(solution, VarsKey)
      case Some(v) => Restored(AssignStored(vars, unserialize(v)), CompleteIn(vars, unserialize(v)))
      case None => Restored(vars, false)
    decreases |solution|
  {
    if solution != [] {
      var front := solution[..|solution| - 1];
      var e := solution[|solution| - 1];
      assert DistinctKeys(front) by {
        assert forall i :: 0 <= i < |front| ==> front[i] == solution[i];
      }
      assert e.0 !in Keys(front) by {
        forall x | x in Keys(front) ensures x != e.0 {
          var i :| 0 <= i < |front| && front[i].0 == x;
          assert solution[i].0 == x;
        }
      }
      RestoreFromVarsEntry(vars, front, unserialize);
      assert front + [e] == solution;
      GetSnoc(front, e, VarsKey);
    }
  }

  /**
   * The variable values a solution is given by `addVariablesToUserSolution`
   * are restored by `initVariablesFromUserSolution`: with an unserialiser
   * that undoes the serialiser, the variables come back complete and with
   * exactly the saved values.
   */
  lemma {:induction false} StoredVariablesRoundTrip(saved: seq<Variable>, current: seq<Variable>, solution: Assoc,
                                 serialize: map<string, real> -> string, unserialize: string -> map<string, real>)
    requires DistinctKeys(solution) && DistinctNames(saved) && |saved| == |current|
    requires forall j :: 0 <= j < |saved| ==> saved[j].name == current[j].name
    requires unserialize(serialize(ValuesOf(saved))) == ValuesOf(saved)
    ensures Restore(current, Put(solution, VarsKey, serialize(ValuesOf(saved))), unserialize) == Restored(saved, true)
  {
    var stored := Put(solution, VarsKey, serialize(ValuesOf(saved)));
    PutDistinct(solution, VarsKey, serialize(ValuesOf(saved)));
    GetPut(solution, VarsKey, serialize(ValuesOf(saved)), VarsKey);
    RestoreFromVarsEntry(current, stored, unserialize);
    RestoreStoredValues(saved, current);
  }

  // ---------------------------------------------------------------------
  // The question

  class AccountingQuestion {
    /** `getId()`. */
    var id: int
    /** The question text (`getQuestion()`). */
    var question: string
    var accountsXml: string
    var accountsData: seq<Entry>
    var accountsSearchTitle: bool
    var variablesXml: string
    var variables: seq<Variable>
    var analyzeError: AnalyzeError
    /** The maximum points (`getPoints()`). */
    var points: real
    var parts: PartTable
    /** The key the next appended part gets. */
    var nextKey: int

    predicate Valid()
      reads this
    {
      KeysBelow(parts, nextKey)
    }

    /** A question with the parts its loader delivered, and empty definitions otherwise. */
    constructor(id: int, question: string, loaded: PartTable)
      requires forall i :: 0 <= i < |loaded| ==> loaded[i].0 >= 0
      requires forall i, j :: 0 <= i < j < |loaded| ==> loaded[i].0 != loaded[j].0
      ensures Valid()
      ensures this.id == id && this.question == question && parts == loaded
      ensures accountsXml == "" && accountsData == [] && !accountsSearchTitle
      ensures variablesXml == "" && variables == [] && analyzeError == NoError && points == 0.0
    {
      this.id := id;
      this.question := question;
      accountsXml := "";
      accountsData := [];
      accountsSearchTitle := false;
      variablesXml := "";
      variables := [];
      analyzeError := NoError;
      points := 0.0;
      parts := loaded;
      nextKey := NextFreeKey(loaded);
    }

    // -------------------------------------------------------------------
    // Accounts

    /**
     * `setAccountsXML`: the directory is emptied first; a definition that
     * did not parse, or whose root is not `konten`, is refused and leaves
     * the stored definition and the search flag as they were. Otherwise
     * the directory is the placeholder followed by one account per child.
     */
    method SetAccountsXML(xml: string, parsed: Option<XmlTree>) returns (ok: bool)
      modifies this`accountsXml, this`accountsData, this`accountsSearchTitle
      ensures ok <==> parsed.Some? && parsed.value.name == RootName
      ensures ok ==> var tree := parsed.value;
        && accountsData == Directory(Attribute(tree.attributes, "anzeige"), tree.children)
        && accountsXml == xml
        && accountsSearchTitle == SearchesTitle(Attribute(tree.attributes, "suche"))
      ensures !ok ==> accountsData == [] && accountsXml == old(accountsXml) && accountsSearchTitle == old(accountsSearchTitle)
    {
      accountsData := [];
      if parsed.None? {
        return false;
      }
      var tree := parsed.value;
      if tree.name != RootName {
        return false;
      }
      var display := Attribute(tree.attributes, "anzeige");
      var search := Attribute(tree.attributes, "suche");
      var data := [Empty];
      for k := 0 to |tree.children|
        invariant data == Directory(display, tree.children[..k])
      {
        var child := tree.children[k];
        var title := Attribute(child, "titel");
        var number := Attribute(child, "nummer");
        var text;
        if Lower(display) == "nummer" {
          text := number;
        } else if Lower(display) == "titel" {
          text := title;
        } else {
          text := number + ": " + title;
        }
        assert tree.children[..k + 1][..k] == tree.children[..k];
        data := data + [Account(number, title, text)];
      }
      assert tree.children[..|tree.children|] == tree.children;
      accountsXml := xml;
      accountsData := data;
      accountsSearchTitle := search == "beide" || search == "titel";
      return true;
    }

    /** `getAccount`: the first entry that matches the input, or `Empty`. */
    method GetAccount(input: string) returns (e: Entry)
      ensures e == FindAccount(accountsData, input)
    {
      var data := accountsData;
      for i := 0 to |data|
        invariant NoneMatch(data[..i], input)
      {
        assert data[..i + 1] == data[..i] + [data[i]];
        var account := data[i];
        if Matches(account, input) {
          AccountPosAt(data, input, i);
          return account;
        }
      }
      assert data[..|data|] == data;
      AccountPosNone(data, input);
      return Empty;
    }

    /** `getAccountText`: the text of the first entry whose number matches, or `''`. */
    method GetAccountText(number: string) returns (text: string)
      ensures text == AccountTextOf(accountsData, number)
    {
      var data := accountsData;
      for i := 0 to |data|
        invariant NoNumberMatch(data[..i], number)
      {
        assert data[..i + 1] == data[..i] + [data[i]];
        var account := data[i];
        if NumberMatches(account, number) {
          NumberPosAt(data, number, i);
          return TextOf(account);
        }
      }
      assert data[..|data|] == data;
      NumberPosNone(data, number);
      return "";
    }

    // -------------------------------------------------------------------
    // Variables

    /**
     * `setVariablesXML`: a blank definition gives no variables; otherwise
     * the parser's variables are taken, and a parse error is recorded in
     * `analyze_error` with nothing else changed.
     */
    method SetVariablesXML(xml: string, parse: string -> VariablesParse) returns (ok: bool)
      modifies this`variablesXml, this`variables, this`analyzeError
      ensures ok <==> Blank(xml) || parse(xml).ParsedVariables?
      ensures ok ==> variablesXml == xml && variables == (if Blank(xml) then [] else parse(xml).vars)
                     && analyzeError == old(analyzeError)
      ensures !ok ==> analyzeError == Message(parse(xml).message)
                      && variablesXml == old(variablesXml) && variables == old(variables)
    {
      var result;
      if !Blank(xml) {
        result := parse(xml);
      } else {
        result := ParsedVariables([]);
      }
      if result.ParseError? {
        analyzeError := Message(result.message);
        return false;
      }
      variablesXml := xml;
      variables := result.vars;
      return true;
    }

    /**
     * `calculateVariables`: calculates the variables in list order, each
     * seeing the values calculated before it, and stops at the first one
     * that cannot be calculated, recording why in `analyze_error`.
     */
    method CalculateVariables(calculate: (seq<Variable>, nat) -> CalcOutcome) returns (ok: bool)
      modifies this`variables, this`analyzeError
      ensures var r := RunCalculation(old(variables), calculate, 0);
        && variables == r.vars
        && (ok <==> r.Done?)
        && analyzeError == (if r.Stopped? then r.error else old(analyzeError))
    {
      var i := 0;
      while i < |variables|
        invariant 0 <= i <= |variables|
        invariant RunCalculation(variables, calculate, i) == RunCalculation(old(variables), calculate, 0)
        invariant analyzeError == old(analyzeError)
        decreases |variables| - i
      {
        match calculate(variables, i)
        case Calculated(x) =>
          variables := variables[i := variables[i].(value := x)];
          i := i + 1;
        case NotCalculated =>
          analyzeError := VarNotCalculated(variables[i].name);
          return false;
        case Failed(message) =>
          analyzeError := Message(message);
          return false;
      }
      return true;
    }

    /** The inner loop of `initVariablesFromUserSolution`: assigns the stored values and reports whether every variable had one. */
    method AssignStoredValues(values: map<string, real>) returns (complete: bool)
      modifies this`variables
      ensures variables == AssignStored(old(variables), values)
      ensures complete == CompleteIn(old(variables), values)
    {
      complete := true;
      for j := 0 to |variables|
        invariant |variables| == |old(variables)|
        invariant forall k :: 0 <= k < j ==> variables[k] == AssignStored(old(variables), values)[k]
        invariant forall k :: j <= k < |variables| ==> variables[k] == old(variables)[k]
        invariant complete <==> forall k :: 0 <= k < j ==> old(variables)[k].name in values
      {
        var name := variables[j].name;
        if name in values {
          variables := variables[j := variables[j].(value := values[name])];
        } else {
          complete := false;
        }
      }
    }

    /**
     * `initVariablesFromUserSolution`: takes the stored values from the
     * solution; when they are not complete the variables are calculated;
     * then the variables are substituted, for display, into the question
     * text and the texts of the parts.
     */
    method InitVariablesFromUserSolution(solution: Assoc, unserialize: string -> map<string, real>,
                                         calculate: (seq<Variable>, nat) -> CalcOutcome,
                                         render: (Variable, Rendering) -> string)
      returns (complete: bool)
      requires Valid()
      modifies this`variables, this`analyzeError, this`question, this`parts
      ensures Valid()
      ensures var r := Restore(old(variables), solution, unserialize);
        var run := RunCalculation(r.vars, calculate, 0);
        && complete == r.complete
        && variables == (if complete then r.vars else run.vars)
        && analyzeError == (if !complete && run.Stopped? then run.error else old(analyzeError))
      ensures question == Substitute(variables, old(question), SubDisplay, render)
      ensures parts == SubstitutedParts(old(parts), variables, render)
    {
      complete := RestoreStored(solution, unserialize);
      if !complete {
        var _ := CalculateVariables(calculate);
      }
      question := SubstituteVariables(question, SubDisplay, render);
      SubstitutePartTexts(render);
    }

    /** The loop of `initVariablesFromUserSolution` over the solution's entries. */
    method RestoreStored(solution: Assoc, unserialize: string -> map<string, real>) returns (complete: bool)
      modifies this`variables
      ensures Restored(variables, complete) == Restore(old(variables), solution, unserialize)
    {
      complete := false;
      for i := 0 to |solution|
        invariant Restore(old(variables), solution[..i], unserialize) == Restored(variables, complete)
      {
        assert solution[..i + 1][..i] == solution[..i];
        if solution[i].0 == VarsKey {
          var values := unserialize(solution[i].1);
          complete := AssignStoredValues(values);
        }
      }
      assert solution[..|solution|] == solution;
    }

    /** The loop of `initVariablesFromUserSolution` over the parts: each part's text gets the display values. */
    method SubstitutePartTexts(render: (Variable, Rendering) -> string)
      requires Valid()
      modifies this`parts
      ensures Valid()
      ensures parts == SubstitutedParts(old(parts), variables, render)
    {
      for i := 0 to |parts|
        invariant |parts| == |old(parts)|
        invariant forall k :: 0 <= k < i ==> parts[k] == SubstitutedParts(old(parts), variables, render)[k]
        invariant forall k :: i <= k < |parts| ==> parts[k] == old(parts)[k]
      {
        var text := SubstituteVariables(parts[i].1.text, SubDisplay, render);
        parts := parts[i := (parts[i].0, parts[i].1.(text := text))];
      }
    }

    /** `addVariablesToUserSolution`: the solution with `accqst_vars` set to the serialised name-to-value map. */
    method AddVariablesToUserSolution(solution: Assoc, serialize: map<string, real> -> string) returns (result: Assoc)
      ensures result == Put(solution, VarsKey, serialize(ValuesOf(variables)))
    {
      var values: map<string, real> := map[];
      for i := 0 to |variables|
        invariant values == ValuesOf(variables[..i])
      {
        assert variables[..i + 1][..i] == variables[..i];
        values := values[variables[i].name := variables[i].value];
      }
      assert variables[..|variables|] == variables;
      result := Put(solution, VarsKey, serialize(values));
    }

    /**
     * `substituteVariables`: for each variable in list order, when its
     * token occurs, every occurrence is replaced by its rendering for the
     * mode.
     */
    method SubstituteVariables(s: string, mode: string, render: (Variable, Rendering) -> string) returns (result: string)
      ensures result == Substitute(variables, s, mode, render)
    {
      result := s;
      for i := 0 to |variables|
        invariant result == Substitute(variables[..i], s, mode, render)
      {
        assert variables[..i + 1][..i] == variables[..i];
        var v := variables[i];
        var pattern := "{" + v.name + "}";
        if IndexOf(result, pattern) >= 0 {
          var value;
          if mode == SubNumeric {
            value := render(v, Numeric);
          } else if mode == SubDisplay {
            value := render(v, Display);
          } else {
            value := render(v, Default);
          }
          result := ReplaceAll(result, pattern, value);
        }
      }
      assert variables[..|variables|] == variables;
    }

    // -------------------------------------------------------------------
    // Solutions

    /**
     * `getSolutionSubmit`: one fragment per part, with the part's rows
     * built from the request fields, joined by `<partBreak />` under
     * `accqst_input`.
     */
    method GetSolutionSubmit(request: string -> string) returns (solution: Assoc)
      ensures solution == Submission(id, PartsIn(parts), request, accountsData)
    {
      ghost var fragments := Fragments(id, PartsIn(parts), request, accountsData);
      var inputs: seq<string> := [];
      for i := 0 to |parts|
        invariant inputs == fragments[..i]
      {
        var xml := PartInput(parts[i].1, request);
        PrefixSnoc(fragments, i);
        inputs := inputs + [xml];
      }
      assert fragments[..|parts|] == fragments;
      solution := [(InputKey, Join(inputs, PartBreak))];
    }

    /** The body of the loop of `getSolutionSubmit` for one part: its header, one row per booking line, the closing tag. */
    method PartInput(p: Part, request: string -> string) returns (xml: string)
      ensures xml == Fragment(id, p, request, accountsData)
    {
      ghost var rows := RowList(id, p.partId, request, accountsData, p.maxLines);
      var body := "";
      for row := 0 to p.maxLines
        invariant body == Concat(rows[..row])
      {
        var rowXml := RowInput(FieldPrefix(id, p.partId, row), request);
        ConcatSnoc(rows, row);
        body := body + rowXml;
      }
      assert rows[..p.maxLines] == rows;
      xml := Header(p.partId) + body + "</input>";
    }

    /** One `<row …/>` of `getSolutionSubmit`, from the request fields under the prefix and the directory texts of the two accounts. */
    method RowInput(prefix: string, request: string -> string) returns (row: string)
      ensures row == RowXml(prefix, request, accountsData)
    {
      var right := request(prefix + "amount_right");
      var left := request(prefix + "amount_left");
      var rightAccount := request(prefix + "account_right");
      var leftAccount := request(prefix + "account_left");
      var rightText := GetAccountText(rightAccount);
      var leftText := GetAccountText(leftAccount);
      row := RowOf(right, left, rightAccount, leftAccount, rightText, leftText);
    }

    /** `getSolutionStored`, from the rows the database selected: each row with a `value1` sets its entry, later rows winning. */
    method GetSolutionStored(rows: seq<Row>) returns (solution: Assoc)
      ensures solution == StoredSolution(rows)
    {
      solution := [];
      for i := 0 to |rows|
        invariant solution == StoredSolution(rows[..i])
      {
        assert rows[..i + 1][..i] == rows[..i];
        var row := rows[i];
        if row.value1.Some? {
          solution := Put(solution, row.value1.value, row.value2.UnwrapOr(""));
        }
      }
      assert rows[..|rows|] == rows;
    }

    /**
     * `getSolutionParts`: the fragments of `accqst_input` under the ids
     * they carry, and old-format `x_input_<id>` entries under their id.
     */
    method GetSolutionParts(solution: Assoc) returns (decoded: Assoc)
      ensures decoded == PartsOf(solution)
    {
      decoded := [];
      for i := 0 to |solution|
        invariant decoded == PartsOf(solution[..i])
      {
        assert solution[..i + 1][..i] == solution[..i];
        var (key, value) := solution[i];
        if key == InputKey {
          var inputs := Split(value, PartBreak);
          ghost var before := decoded;
          for j := 0 to |inputs|
            invariant decoded == AddFragments(before, inputs[..j])
          {
            assert inputs[..j + 1][..j] == inputs[..j];
            match FindPartId(inputs[j], 0)
            case Some(partId) =>
              decoded := Put(decoded, partId, inputs[j]);
            case None =>
          }
          assert inputs[..|inputs|] == inputs;
        } else {
          var split := Split(key, "_");
          var partKey := if |split| > 1 then Some(split[1]) else None;
          var partId := if |split| > 2 then split[2] else "0";
          if partKey == Some("input") {
            decoded := Put(decoded, partId, value);
          }
        }
      }
      assert solution[..|solution|] == solution;
    }

    // -------------------------------------------------------------------
    // Points

    /** `calculateMaximumPoints`: the sum of the parts' maxima. */
    method CalculateMaximumPoints()
      modifies this`points
      ensures points == MaxPointsOf(PartsIn(parts))
    {
      var ps := PartsIn(parts);
      var sum := 0.0;
      for i := 0 to |parts|
        invariant sum == MaxPointsOf(ps[..i])
      {
        assert ps[..i + 1][..i] == ps[..i];
        sum := sum + parts[i].1.maxPoints;
      }
      assert ps[..|parts|] == ps;
      points := sum;
    }

    /** `calculateReachedPointsForSolution`: each part scored on the fragment decoded under its id, or on `''`, summed. */
    method CalculateReachedPointsForSolution(solution: Assoc, score: (Part, string) -> real) returns (reached: real)
      ensures reached == ReachedOf(PartsIn(parts), PartsOf(solution), score)
    {
      var decoded := GetSolutionParts(solution);
      var ps := PartsIn(parts);
      reached := 0.0;
      for i := 0 to |parts|
        invariant reached == ReachedOf(ps[..i], decoded, score)
      {
        assert ps[..i + 1][..i] == ps[..i];
        var p := parts[i].1;
        var fragment := match Get(decoded, IntToString(p.partId)) case Some(f) => f case None => "";
        reached := reached + score(p, fragment);
      }
      assert ps[..|parts|] == ps;
    }

    // -------------------------------------------------------------------
    // The part list

    /** `getPart`: the first part with the id; when there is none, a new part is appended under the next free key and returned. */
    method GetPart(partId: int, newPart: Part) returns (p: Part)
      requires Valid()
      modifies this`parts, this`nextKey
      ensures Valid()
      ensures var k := FindPart(PartsIn(old(parts)), partId);
        if k < |old(parts)| then
          p == old(parts)[k].1 && parts == old(parts) && nextKey == old(nextKey)
        else
          p == newPart && parts == old(parts) + [(old(nextKey), newPart)] && nextKey == old(nextKey) + 1
    {
      for i := 0 to |parts|
        invariant parts == old(parts) && nextKey == old(nextKey)
        invariant forall j :: 0 <= j < i ==> PartsIn(parts)[j].partId != partId
      {
        if parts[i].1.partId == partId {
          assert PartsIn(parts)[i] == parts[i].1;
          return parts[i].1;
        }
      }
      parts := parts + [(nextKey, newPart)];
      nextKey := nextKey + 1;
      return newPart;
    }

    /**
     * `deletePart`, as written: the first part with the id whose deletion
     * succeeds is looked up, but what is unset is the array key equal to
     * the id; the maximum points are then recalculated.
     */
    method DeletePart(partId: int, deletes: Part -> bool) returns (ok: bool)
      requires Valid()
      modifies this`parts, this`points
      ensures Valid()
      ensures var k := DeleteTarget(PartsIn(old(parts)), partId, deletes);
        && (ok <==> k < |old(parts)|)
        && (ok ==> parts == Unset(old(parts), partId) && points == MaxPointsOf(PartsIn(parts)))
        && (!ok ==> parts == old(parts) && points == old(points))
    {
      for i := 0 to |parts|
        invariant parts == old(parts) && points == old(points)
        invariant forall j :: 0 <= j < i ==> !(PartsIn(parts)[j].partId == partId && deletes(PartsIn(parts)[j]))
      {
        if parts[i].1.partId == partId {
          if deletes(parts[i].1) {
            assert PartsIn(parts)[i] == parts[i].1;
            UnsetKeysBelow(parts, partId, nextKey);
            parts := Unset(parts, partId);
            CalculateMaximumPoints();
            return true;
          }
        }
      }
      return false;
    }

    /** `deletePart` as intended: the key of the part found is unset, so exactly that part leaves the list. */
    method DeletePartIntended(partId: int, deletes: Part -> bool) returns (ok: bool)
      requires Valid()
      modifies this`parts, this`points
      ensures Valid()
      ensures var k := DeleteTarget(PartsIn(old(parts)), partId, deletes);
        && (ok <==> k < |old(parts)|)
        && (ok ==> parts == old(parts)[..k] + old(parts)[k + 1..] && points == MaxPointsOf(PartsIn(parts)))
        && (!ok ==> parts == old(parts) && points == old(points))
    {
      for i := 0 to |parts|
        invariant parts == old(parts) && points == old(points)
        invariant forall j :: 0 <= j < i ==> !(PartsIn(parts)[j].partId == partId && deletes(PartsIn(parts)[j]))
      {
        var p := parts[i].1;
        if p.partId == partId && deletes(p) {
          assert PartsIn(parts)[i] == p;
          UnsetFound(parts, i, nextKey);
          parts := Unset(parts, parts[i].0);
          CalculateMaximumPoints();
          return true;
        }
      }
      return false;
    }

    /** `deleteParts`: every part is deleted and the list emptied, which also resets the next key. */
    method DeleteParts()
      modifies this`parts, this`nextKey
      ensures Valid() && parts == [] && nextKey == 0
    {
      parts := [];
      nextKey := 0;
    }
  }
}
