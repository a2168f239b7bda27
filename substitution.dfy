/**
 * `fill_placeholders` of mailer/main.py: for one recipient, fill every
 * expression from the recipient's own variables and evaluate it, merge the
 * results into the recipient's variables (the caller's dict is updated in
 * place), then fill every section from the merged variables.
 *
 * Python's `eval` is a parameter: it maps the filled expression text to the
 * text of its value, or to `None` when evaluation raises.
 */
module Substitution {
  import opened Wrappers
  import opened Dict
  import opened Placeholders

  /** The exception `fill_placeholders` lets escape, and where it arose. */
  datatype Failure =
    | ExpressionFill(name: string, cause: FillError)
    | ExpressionEval(name: string)
    | SectionFill(key: string, cause: FillError)

  /** What filling and evaluating one expression entry raises, if anything. */
  function ExpressionFailure(entry: (string, string), vars: map<string, string>, eval: string -> Option<string>)
    : (f: Option<Failure>)
    ensures f.Some? ==> (f.value.ExpressionFill? || f.value.ExpressionEval?) && f.value.name == entry.0
    ensures f.Some? && f.value.ExpressionFill? && f.value.cause.UndefinedName? ==>
              f.value.cause.name in ListVariables(entry.1) && f.value.cause.name !in vars
  {
    match FillVariables(entry.1, vars)
    case Err(cause) => Some(ExpressionFill(entry.0, cause))
    case Ok(text) => if eval(text).None? then Some(ExpressionEval(entry.0)) else None
  }

  /**
   * `{k: eval(fill_variables(v, variables)) for k, v in expressions.items()}`:
   * entries are handled in order and the first failure is raised.
   */
  function EvaluateExpressions(exprs: seq<(string, string)>, vars: map<string, string>, eval: string -> Option<string>)
    : (r: Result<seq<(string, string)>, Failure>)
    ensures r.Ok? ==> Keys(r.value) == Keys(exprs) && |r.value| == |exprs|
  {
    if exprs == [] then Ok([])
    else
      var (name, text) := exprs[0];
      match FillVariables(text, vars)
      case Err(cause) => Err(ExpressionFill(name, cause))
      case Ok(filled) =>
        match eval(filled)
        case None => Err(ExpressionEval(name))
        case Some(value) =>
          match EvaluateExpressions(exprs[1..], vars, eval)
          case Err(f) => Err(f)
          case Ok(rest) => Ok([(name, value)] + rest)
  }

  /**
   * The expressions evaluate exactly when none fails, and then entry `i` of
   * the result is the value `eval` gives for expression `i` filled.
   */
  lemma {:induction false} EvaluateExpressionsValues(exprs: seq<(string, string)>, vars: map<string, string>,
                                                     eval: string -> Option<string>)
    ensures var r := EvaluateExpressions(exprs, vars, eval);
      && (r.Ok? <==> forall i :: 0 <= i < |exprs| ==> ExpressionFailure(exprs[i], vars, eval).None?)
      && (r.Ok? ==> forall i :: 0 <= i < |exprs| ==>
            FillVariables(exprs[i].1, vars).Ok? && eval(FillVariables(exprs[i].1, vars).value) == Some(r.value[i].1))
  {
    if exprs != [] {
      EvaluateExpressionsValues(exprs[1..], vars, eval);
      assert forall i :: 1 <= i < |exprs| ==> exprs[i] == exprs[1..][i - 1];
    }
  }

  /** When the expressions fail, the failure is that of the first expression that fails. */
  lemma {:induction false} EvaluateExpressionsFirstFailure(exprs: seq<(string, string)>, vars: map<string, string>,
                                                           eval: string -> Option<string>)
    requires EvaluateExpressions(exprs, vars, eval).Err?
    ensures exists i :: 0 <= i < |exprs| && ExpressionFailure(exprs[i], vars, eval) == Some(EvaluateExpressions(exprs, vars, eval).error)
                        && forall j :: 0 <= j < i ==> ExpressionFailure(exprs[j], vars, eval).None?
  {
    var f := EvaluateExpressions(exprs, vars, eval).error;
    if ExpressionFailure(exprs[0], vars, eval).Some? {
      assert ExpressionFailure(exprs[0], vars, eval) == Some(f);
    } else {
      var tail := exprs[1..];
      EvaluateExpressionsFirstFailure(tail, vars, eval);
      var i :| 0 <= i < |tail| && ExpressionFailure(tail[i], vars, eval) == Some(f)
        && forall j :: 0 <= j < i ==> ExpressionFailure(tail[j], vars, eval).None?;
      assert exprs[i + 1] == tail[i];
      assert forall j :: 1 <= j < i + 1 ==> exprs[j] == tail[j - 1];
    }
  }

  /**
   * `{key: fill_variables(value, variables) for key, value in email_parts.items()}`:
   * sections are filled in order and the first failure is raised.
   */
  function FillSections(parts: seq<(string, string)>, vars: map<string, string>): (r: Result<seq<(string, string)>, Failure>)
    ensures r.Ok? ==> Keys(r.value) == Keys(parts) && |r.value| == |parts|
  {
    if parts == [] then Ok([])
    else
      var (key, text) := parts[0];
      match FillVariables(text, vars)
      case Err(cause) => Err(SectionFill(key, cause))
      case Ok(filled) =>
        match FillSections(parts[1..], vars)
        case Err(f) => Err(f)
        case Ok(rest) => Ok([(key, filled)] + rest)
  }

  /**
   * The sections are filled exactly when each of them can be, and then
   * section `i` of the result is section `i` filled.
   */
  lemma {:induction false} FillSectionsValues(parts: seq<(string, string)>, vars: map<string, string>)
    ensures var r := FillSections(parts, vars);
      && (r.Ok? <==> forall i :: 0 <= i < |parts| ==> FillVariables(parts[i].1, vars).Ok?)
      && (r.Ok? ==> forall i :: 0 <= i < |parts| ==> FillVariables(parts[i].1, vars) == Ok(r.value[i].1))
  {
    if parts != [] {
      FillSectionsValues(parts[1..], vars);
      assert forall i :: 1 <= i < |parts| ==> parts[i] == parts[1..][i - 1];
    }
  }

  /** When filling fails, the failure names the first section that cannot be filled, and its cause. */
  lemma {:induction false} FillSectionsFirstFailure(parts: seq<(string, string)>, vars: map<string, string>)
    requires FillSections(parts, vars).Err?
    ensures exists i :: 0 <= i < |parts| && FillVariables(parts[i].1, vars).Err?
                        && FillSections(parts, vars).error == SectionFill(parts[i].0, FillVariables(parts[i].1, vars).error)
                        && forall j :: 0 <= j < i ==> FillVariables(parts[j].1, vars).Ok?
  {
    var f := FillSections(parts, vars).error;
    if FillVariables(parts[0].1, vars).Err? {
      assert f == SectionFill(parts[0].0, FillVariables(parts[0].1, vars).error);
    } else {
      var tail := parts[1..];
      FillSectionsFirstFailure(tail, vars);
      var i :| 0 <= i < |tail| && FillVariables(tail[i].1, vars).Err?
        && f == SectionFill(tail[i].0, FillVariables(tail[i].1, vars).error)
        && forall j :: 0 <= j < i ==> FillVariables(tail[j].1, vars).Ok?;
      assert parts[i + 1] == tail[i];
      assert forall j :: 1 <= j < i + 1 ==> parts[j] == tail[j - 1];
    }
  }

  /**
   * No placeholder survives filling: when every section is a template in the
   * modelled fragment whose names are all bound, and no value has a brace,
   * the sections are filled and no filled section has a brace.
   */
  lemma FillSectionsBraceFree(parts: seq<(string, string)>, segs: seq<seq<Segment>>, vars: map<string, string>)
    requires |segs| == |parts|
    requires forall i :: 0 <= i < |parts| ==>
               parts[i].1 == Unparse(segs[i]) && WellFormed(segs[i]) && Names(segs[i]) <= vars.Keys
    requires forall x :: x in vars ==> BraceFree(vars[x])
    ensures FillSections(parts, vars).Ok?
    ensures forall i :: 0 <= i < |parts| ==> BraceFree(FillSections(parts, vars).value[i].1)
  {
    forall i | 0 <= i < |parts|
      ensures FillVariables(parts[i].1, vars).Ok? && BraceFree(FillVariables(parts[i].1, vars).value)
    {
      FillVariablesSubstitutes(segs[i], vars);
      NarrowingIsUnobservable(parts[i].1, vars);
      FilledTextIsBraceFree(parts[i].1, vars);
    }
    FillSectionsValues(parts, vars);
  }

  /** A recipient's variables: one row of the recipient table, a dict the mailer updates in place. */
  class Variables {
    var bindings: map<string, string>

    constructor (row: map<string, string>)
      ensures bindings == row
    {
      bindings := row;
    }

    /** `dict.update`: every binding of `other` is added, replacing a binding of the same name. */
    method Update(other: map<string, string>)
      modifies this
      ensures bindings == old(bindings) + other
      ensures forall x :: x in other ==> bindings[x] == other[x]
      ensures forall x :: x in old(bindings) && x !in other ==> bindings[x] == old(bindings)[x]
    {
      bindings := bindings + other;
    }
  }

  /**
   * `fill_placeholders(email_parts, variables, expressions)`. When an
   * expression fails nothing is changed; otherwise the recipient's variables
   * gain the expression results (overriding same-named variables) and every
   * section is filled from the merged variables.
   */
  method FillPlaceholders(parts: seq<(string, string)>, variables: Variables, exprs: seq<(string, string)>,
                          eval: string -> Option<string>)
    returns (r: Result<seq<(string, string)>, Failure>)
    modifies variables
    ensures var evaluated := EvaluateExpressions(exprs, old(variables.bindings), eval);
      if evaluated.Err? then
        r == Err(evaluated.error) && variables.bindings == old(variables.bindings)
      else
        variables.bindings == old(variables.bindings) + ToMap(evaluated.value)
        && r == FillSections(parts, variables.bindings)
  {
    var evaluated := EvaluateExpressions(exprs, variables.bindings, eval);
    if evaluated.Err? {
      return Err(evaluated.error);
    }
    variables.Update(ToMap(evaluated.value));
    r := FillSections(parts, variables.bindings);
  }

  /**
   * Expressions are filled from the recipient's variables only: an
   * expression referencing a name the recipient lacks (another expression's
   * name included) makes the expression step fail.
   */
  lemma ExpressionSeesOnlyRecipient(exprs: seq<(string, string)>, vars: map<string, string>, eval: string -> Option<string>,
                                    i: nat, y: string)
    requires i < |exprs| && y in ListVariables(exprs[i].1) && y !in vars
    ensures EvaluateExpressions(exprs, vars, eval).Err?
  {
    MissingVariableFails(exprs[i].1, vars, y);
    EvaluateExpressionsValues(exprs, vars, eval);
  }

  /**
   * After `variables.update(expr)` each expression name is bound to its
   * evaluated value, overriding a recipient variable of the same name, and
   * every other recipient variable keeps its value.
   */
  lemma ExpressionResultsOverride(exprs: seq<(string, string)>, vars: map<string, string>, eval: string -> Option<string>)
    requires UniqueKeys(exprs)
    requires EvaluateExpressions(exprs, vars, eval).Ok?
    ensures var merged := vars + ToMap(EvaluateExpressions(exprs, vars, eval).value);
      && (forall i :: 0 <= i < |exprs| ==>
            exprs[i].0 in merged && FillVariables(exprs[i].1, vars).Ok?
            && Some(merged[exprs[i].0]) == eval(FillVariables(exprs[i].1, vars).value))
      && (forall x :: x in vars && x !in Keys(exprs) ==> x in merged && merged[x] == vars[x])
  {
    var values := EvaluateExpressions(exprs, vars, eval).value;
    var merged := vars + ToMap(values);
    EvaluateExpressionsValues(exprs, vars, eval);
    KeysAt(exprs);
    KeysAt(values);
    forall i | 0 <= i < |exprs|
      ensures exprs[i].0 in merged && FillVariables(exprs[i].1, vars).Ok?
              && Some(merged[exprs[i].0]) == eval(FillVariables(exprs[i].1, vars).value)
    {
      assert values[i].0 == exprs[i].0 by { assert Keys(values)[i] == Keys(exprs)[i]; }
      GetAt(values, i);
    }
    forall x | x in vars && x !in Keys(exprs)
      ensures x in merged && merged[x] == vars[x]
    {
      assert x !in ToMap(values);
    }
  }

  /** The segments of the expression text `{n} * 2`. */
  lemma ExampleExpressionSegments()
    ensures WellFormed([Placeholder("n"), Literal(" * 2")])
    ensures Unparse([Placeholder("n"), Literal(" * 2")]) == "{n} * 2"
  {
    assert !IsPositional("n") by { LetterIsNoDigit("n"[0]); }
  }

  lemma EvaluateOne(name: string, text: string, vars: map<string, string>, eval: string -> Option<string>, filled: string, value: string)
    requires FillVariables(text, vars) == Ok(filled) && eval(filled) == Some(value)
    ensures EvaluateExpressions([(name, text)], vars, eval) == Ok([(name, value)])
  {
    assert [(name, text)][1..] == [];
    assert EvaluateExpressions([], vars, eval) == Ok([]);
    assert [(name, value)] + [] == [(name, value)];
  }

  lemma FillOne(key: string, text: string, vars: map<string, string>, filled: string)
    requires FillVariables(text, vars) == Ok(filled)
    ensures FillSections([(key, text)], vars) == Ok([(key, filled)])
  {
    assert [(key, text)][1..] == [];
    assert FillSections([], vars) == Ok([]);
    assert [(key, filled)] + [] == [(key, filled)];
  }

  /**
   * A worked example, expression step: `x` =
   * `{n} * 2` for the recipient `name` = Ana, `n` = 3 evaluates `3 * 2`.
   */
  lemma WorkedExampleExpression(eval: string -> Option<string>)
    requires eval("3 * 2") == Some("6")
    ensures EvaluateExpressions([("x", "{n} * 2")], map["name" := "Ana", "n" := "3"], eval) == Ok([("x", "6")])
  {
    assert "3" + (" * 2" + "") == "3 * 2";
    var vars := map["name" := "Ana", "n" := "3"];
    var segs := [Placeholder("n"), Literal(" * 2")];
    ExampleExpressionSegments();
    FillVariablesSubstitutes(segs, vars);
    assert segs[1..] == [Literal(" * 2")] && segs[1..][1..] == [];
    assert Substitute(segs[1..], vars) == Ok(" * 2" + "");
    assert Substitute(segs, vars) == Ok("3" + (" * 2" + ""));
    EvaluateOne("x", "{n} * 2", vars, eval, "3 * 2", "6");
  }

  /** The same example without `n`: the expression step fails on the undefined name. */
  lemma WorkedExampleMissingVariable(eval: string -> Option<string>)
    ensures EvaluateExpressions([("x", "{n} * 2")], map["name" := "Ana"], eval) == Err(ExpressionFill("x", UndefinedName("n")))
  {
    var vars := map["name" := "Ana"];
    var segs := [Placeholder("n"), Literal(" * 2")];
    ExampleExpressionSegments();
    FillVariablesSubstitutes(segs, vars);
  }

  /** Unparsing a segment in front of others writes that segment's text first. */
  lemma UnparseCons(seg: Segment, rest: seq<Segment>)
    ensures Unparse([seg] + rest) == (if seg.Literal? then seg.text else "{" + seg.name + "}") + Unparse(rest)
  {
    assert ([seg] + rest)[1..] == rest;
  }

  /** The pieces of the example body are in the modelled fragment. */
  lemma ExampleBodyPieces()
    ensures IsPlainName("name") && IsPlainName("x") && BraceFree("Hi ") && BraceFree(", total=")
  {
    LowercaseNameIsPlain("name");
    LowercaseNameIsPlain("x");
  }

  /** The segments of the example body `Hi {name}, total={x}` are in the modelled fragment. */
  lemma ExampleBodyWellFormed()
    ensures WellFormed([Literal("Hi "), Placeholder("name"), Literal(", total="), Placeholder("x")])
  {
    ExampleBodyPieces();
  }

  /** The segments of the example body unparse to `Hi {name}, total={x}`. */
  lemma ExampleBodyText()
    ensures Unparse([Literal("Hi "), Placeholder("name"), Literal(", total="), Placeholder("x")]) == "Hi {name}, total={x}"
  {
    assert "Hi " + ("{" + "name" + "}" + (", total=" + ("{" + "x" + "}" + ""))) == "Hi {name}, total={x}";
    var s3 := [Placeholder("x")];
    UnparseCons(Placeholder("x"), []);
    assert [Placeholder("x")] + [] == s3;
    var s2 := [Literal(", total=")] + s3;
    UnparseCons(Literal(", total="), s3);
    var s1 := [Placeholder("name")] + s2;
    UnparseCons(Placeholder("name"), s2);
    UnparseCons(Literal("Hi "), s1);
    assert [Literal("Hi ")] + s1 == [Literal("Hi "), Placeholder("name"), Literal(", total="), Placeholder("x")];
  }

  /** The example's body filled from the merged variables. */
  lemma WorkedExampleBody()
    ensures FillSections([("Body", "Hi {name}, total={x}")], map["name" := "Ana", "n" := "3", "x" := "6"])
         == Ok([("Body", "Hi Ana, total=6")])
  {
    assert "Hi " + ("Ana" + (", total=" + ("6" + ""))) == "Hi Ana, total=6";
    var vars := map["name" := "Ana", "n" := "3", "x" := "6"];
    var segs := [Literal("Hi "), Placeholder("name"), Literal(", total="), Placeholder("x")];
    ExampleBodyWellFormed();
    ExampleBodyText();
    FillVariablesSubstitutes(segs, vars);
    assert segs[1..] == [Placeholder("name"), Literal(", total="), Placeholder("x")];
    assert segs[2..] == [Literal(", total="), Placeholder("x")];
    assert segs[3..] == [Placeholder("x")];
    assert segs[3..][1..] == [];
    assert Substitute(segs[3..], vars) == Ok("6" + "");
    assert Substitute(segs[2..], vars) == Ok(", total=" + ("6" + ""));
    assert Substitute(segs[1..], vars) == Ok("Ana" + (", total=" + ("6" + "")));
    assert Substitute(segs, vars) == Ok("Hi " + ("Ana" + (", total=" + ("6" + ""))));
    FillOne("Body", "Hi {name}, total={x}", vars, "Hi Ana, total=6");
  }
}
