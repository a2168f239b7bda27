/**
 * The placeholder engine of mailer/main.py: `list_variables` (a regular
 * expression scan for `{name}`), `replace_placeholders` (`str.format_map`)
 * and `fill_variables` (narrow the variables to the referenced names, then
 * substitute).
 *
 * `str.format_map` is modelled for brace-free literal text and `{name}`
 * fields. The forms it rejects with `ValueError` (a lone `{` or `}`, an
 * unclosed field, a positional field `{}` or `{0}`) give `FormatError`; the
 * forms outside this model (the escapes `{{` and `}}`, and fields using
 * `.`, `[`, `!` or `:`) give `Unsupported`. Like CPython, the scan goes left to
 * right and stops at the first problem.
 */
module Placeholders {
  import opened Wrappers

  datatype FillError =
    | UndefinedName(name: string)   // KeyError: a referenced name has no value
    | FormatError                   // ValueError raised by str.format_map
    | Unsupported                   // format syntax outside this model

  predicate IsBrace(c: char)
  {
    c == '{' || c == '}'
  }

  predicate BraceFree(s: string)
  {
    forall k :: 0 <= k < |s| ==> !IsBrace(s[k])
  }

  /** The index of the first brace of `s` at or after `from`, or `|s|` when there is none. */
  function NextBrace(s: string, from: nat): (n: nat)
    requires from <= |s|
    ensures from <= n <= |s|
    ensures BraceFree(s[from..n])
    ensures n < |s| ==> IsBrace(s[n])
    decreases |s| - from
  {
    if from == |s| || IsBrace(s[from]) then from else NextBrace(s, from + 1)
  }

  /**
   * `set(re.findall(r'\{([^{}]*)\}', s))`: the scan tries each position from
   * left to right and, after a match, resumes behind its closing brace.
   */
  function ListVariables(s: string): (names: set<string>)
    ensures forall x :: x in names ==> BraceFree(x)
    decreases |s|
  {
    if s == [] then {}
    else if s[0] == '{' && NextBrace(s, 1) < |s| && s[NextBrace(s, 1)] == '}' then
      var n := NextBrace(s, 1);
      {s[1..n]} + ListVariables(s[n + 1..])
    else
      ListVariables(s[1..])
  }

  /** `{x}` occurs in `s` starting at index `i`. */
  ghost predicate OccursAt(s: string, i: int, x: string)
  {
    0 <= i && i + |x| + 2 <= |s| && s[i] == '{' && s[i + 1..i + 1 + |x|] == x && s[i + 1 + |x|] == '}'
  }

  /** Behind a `{` opening `{x}` with a brace-free `x`, the next brace is the closing one. */
  lemma NextBraceCloses(s: string, x: string)
    requires OccursAt(s, 0, x) && BraceFree(x)
    ensures NextBrace(s, 1) == |x| + 1
  {
    assert forall k :: 1 <= k < |x| + 1 ==> s[k] == x[k - 1];
  }

  /** An occurrence in a suffix is an occurrence in the whole string. */
  lemma OccursInSuffix(s: string, m: nat, i: int, x: string)
    requires m <= |s| && OccursAt(s[m..], i, x)
    ensures OccursAt(s, i + m, x)
  {
    var t := s[m..];
    assert s[i + m] == t[i];
    assert s[i + m + 1..i + m + 1 + |x|] == t[i + 1..i + 1 + |x|];
    assert s[i + m + 1 + |x|] == t[i + 1 + |x|];
  }

  /** Every name `list_variables` reports is brace-free and occurs as `{name}`. */
  lemma {:induction false} ListedNamesOccur(s: string, x: string)
    requires x in ListVariables(s)
    ensures BraceFree(x) && exists i :: OccursAt(s, i, x)
    decreases |s|
  {
    var n := NextBrace(s, 1);
    var closes := s[0] == '{' && n < |s| && s[n] == '}';
    if closes && x == s[1..n] {
      assert OccursAt(s, 0, x);
    } else {
      var m := if closes then n + 1 else 1;
      assert x in ListVariables(s[m..]);
      ListedNamesOccur(s[m..], x);
      var i :| OccursAt(s[m..], i, x);
      OccursInSuffix(s, m, i, x);
    }
  }

  /** Every brace-free `x` with `{x}` occurring in the string is reported. */
  lemma {:induction false} OccurringNamesListed(s: string, x: string, i: int)
    requires BraceFree(x) && OccursAt(s, i, x)
    ensures x in ListVariables(s)
    decreases |s|
  {
    if i == 0 {
      NextBraceCloses(s, x);
      return;
    }
    var n := NextBrace(s, 1);
    var m := if s[0] == '{' && n < |s| && s[n] == '}' then n + 1 else 1;
    var t := s[m..];
    var j := i - m;
    assert t[j] == s[i];
    assert t[j + 1..j + 1 + |x|] == s[i + 1..i + 1 + |x|];
    assert t[j + 1 + |x|] == s[i + 1 + |x|];
    assert OccursAt(t, j, x);
    OccurringNamesListed(t, x, j);
  }

  /**
   * `list_variables` returns exactly the brace-free `x` such that `{x}`
   * occurs in the string; duplicates collapse into the set.
   */
  lemma ListVariablesSpec(s: string, x: string)
    ensures x in ListVariables(s) <==> BraceFree(x) && exists i :: OccursAt(s, i, x)
  {
    if x in ListVariables(s) {
      ListedNamesOccur(s, x);
    }
    if BraceFree(x) && exists i :: OccursAt(s, i, x) {
      var i :| OccursAt(s, i, x);
      OccurringNamesListed(s, x, i);
    }
  }

  /**
   * A Unicode decimal digit (general category Nd, Unicode 15.0): the
   * characters CPython's `Py_UNICODE_TODECIMAL` gives a digit value for.
   */
  predicate IsDecimalDigit(c: char)
  {
    ('0' <= c <= '9') || ('\U{660}' <= c <= '\U{669}') || ('\U{6F0}' <= c <= '\U{6F9}')
    || ('\U{7C0}' <= c <= '\U{7C9}') || ('\U{966}' <= c <= '\U{96F}') || ('\U{9E6}' <= c <= '\U{9EF}')
    || ('\U{A66}' <= c <= '\U{A6F}') || ('\U{AE6}' <= c <= '\U{AEF}') || ('\U{B66}' <= c <= '\U{B6F}')
    || ('\U{BE6}' <= c <= '\U{BEF}') || ('\U{C66}' <= c <= '\U{C6F}') || ('\U{CE6}' <= c <= '\U{CEF}')
    || ('\U{D66}' <= c <= '\U{D6F}') || ('\U{DE6}' <= c <= '\U{DEF}') || ('\U{E50}' <= c <= '\U{E59}')
    || ('\U{ED0}' <= c <= '\U{ED9}') || ('\U{F20}' <= c <= '\U{F29}') || ('\U{1040}' <= c <= '\U{1049}')
    || ('\U{1090}' <= c <= '\U{1099}') || ('\U{17E0}' <= c <= '\U{17E9}') || ('\U{1810}' <= c <= '\U{1819}')
    || ('\U{1946}' <= c <= '\U{194F}') || ('\U{19D0}' <= c <= '\U{19D9}') || ('\U{1A80}' <= c <= '\U{1A89}')
    || ('\U{1A90}' <= c <= '\U{1A99}') || ('\U{1B50}' <= c <= '\U{1B59}') || ('\U{1BB0}' <= c <= '\U{1BB9}')
    || ('\U{1C40}' <= c <= '\U{1C49}') || ('\U{1C50}' <= c <= '\U{1C59}') || ('\U{A620}' <= c <= '\U{A629}')
    || ('\U{A8D0}' <= c <= '\U{A8D9}') || ('\U{A900}' <= c <= '\U{A909}') || ('\U{A9D0}' <= c <= '\U{A9D9}')
    || ('\U{A9F0}' <= c <= '\U{A9F9}') || ('\U{AA50}' <= c <= '\U{AA59}') || ('\U{ABF0}' <= c <= '\U{ABF9}')
    || ('\U{FF10}' <= c <= '\U{FF19}') || ('\U{104A0}' <= c <= '\U{104A9}')
    || ('\U{10D30}' <= c <= '\U{10D39}') || ('\U{11066}' <= c <= '\U{1106F}')
    || ('\U{110F0}' <= c <= '\U{110F9}') || ('\U{11136}' <= c <= '\U{1113F}')
    || ('\U{111D0}' <= c <= '\U{111D9}') || ('\U{112F0}' <= c <= '\U{112F9}')
    || ('\U{11450}' <= c <= '\U{11459}') || ('\U{114D0}' <= c <= '\U{114D9}')
    || ('\U{11650}' <= c <= '\U{11659}') || ('\U{116C0}' <= c <= '\U{116C9}')
    || ('\U{11730}' <= c <= '\U{11739}') || ('\U{118E0}' <= c <= '\U{118E9}')
    || ('\U{11950}' <= c <= '\U{11959}') || ('\U{11C50}' <= c <= '\U{11C59}')
    || ('\U{11D50}' <= c <= '\U{11D59}') || ('\U{11DA0}' <= c <= '\U{11DA9}')
    || ('\U{11F50}' <= c <= '\U{11F59}') || ('\U{16A60}' <= c <= '\U{16A69}')
    || ('\U{16AC0}' <= c <= '\U{16AC9}') || ('\U{16B50}' <= c <= '\U{16B59}')
    || ('\U{1D7CE}' <= c <= '\U{1D7FF}') || ('\U{1E140}' <= c <= '\U{1E149}')
    || ('\U{1E2F0}' <= c <= '\U{1E2F9}') || ('\U{1E4F0}' <= c <= '\U{1E4F9}')
    || ('\U{1E950}' <= c <= '\U{1E959}') || ('\U{1FBF0}' <= c <= '\U{1FBF9}')
  }

  /** No ASCII letter is a decimal digit. */
  lemma LetterIsNoDigit(c: char)
    requires 'a' <= c <= 'z' || 'A' <= c <= 'Z'
    ensures !IsDecimalDigit(c)
  {
  }

  /** A non-empty name of lower-case ASCII letters is looked up as a key. */
  lemma LowercaseNameIsPlain(x: string)
    requires x != [] && forall k :: 0 <= k < |x| ==> 'a' <= x[k] <= 'z'
    ensures IsPlainName(x)
  {
    LetterIsNoDigit(x[0]);
  }

  /**
   * `str.format_map` reads an empty field name, or one made only of decimal
   * digits of any script, as a positional argument.
   */
  predicate IsPositional(name: string)
  {
    forall k :: 0 <= k < |name| ==> IsDecimalDigit(name[k])
  }

  /** Attribute access, indexing, a conversion or a format spec in a field. */
  predicate HasFieldSyntax(name: string)
  {
    '.' in name || '[' in name || '!' in name || ':' in name
  }

  /** A field name that `str.format_map` looks up as a key, unchanged. */
  predicate IsPlainName(name: string)
  {
    BraceFree(name) && !HasFieldSyntax(name) && !IsPositional(name)
  }

  /**
   * `s.format_map(vars)` on string values. It succeeds only when every name
   * `list_variables` reports is bound, and a `KeyError` names a reported
   * name that is not.
   */
  function FormatMap(s: string, vars: map<string, string>): (r: Result<string, FillError>)
    ensures r.Ok? ==> ListVariables(s) <= vars.Keys
    ensures r.Err? && r.error.UndefinedName? ==> r.error.name in ListVariables(s) && r.error.name !in vars
    decreases |s|
  {
    if s == [] then Ok([])
    else if s[0] == '}' then
      if |s| > 1 && s[1] == '}' then Err(Unsupported) else Err(FormatError)
    else if s[0] == '{' then
      if |s| > 1 && s[1] == '{' then Err(Unsupported)
      else
        var n := NextBrace(s, 1);
        var name := s[1..n];
        if HasFieldSyntax(name) then Err(Unsupported)
        else if n == |s| || s[n] != '}' then Err(FormatError)
        else if IsPositional(name) then Err(FormatError)
        else if name !in vars then Err(UndefinedName(name))
        else
          match FormatMap(s[n + 1..], vars)
          case Ok(rest) => Ok(vars[name] + rest)
          case Err(e) => Err(e)
    else
      match FormatMap(s[1..], vars)
      case Ok(rest) => Ok([s[0]] + rest)
      case Err(e) => Err(e)
  }

  /** The dict comprehension of `fill_variables`: keep only the entries for `names`. */
  function Restrict(vars: map<string, string>, names: set<string>): (r: map<string, string>)
    ensures r.Keys == vars.Keys * names
    ensures forall k :: k in r ==> r[k] == vars[k]
  {
    map k | k in vars && k in names :: vars[k]
  }

  /**
   * `fill_variables(s, vars)`: it succeeds only when every referenced name is
   * bound, and a `KeyError` names a referenced name that is not.
   */
  function FillVariables(s: string, vars: map<string, string>): (r: Result<string, FillError>)
    ensures r.Ok? ==> ListVariables(s) <= vars.Keys
    ensures r.Err? && r.error.UndefinedName? ==> r.error.name in ListVariables(s) && r.error.name !in vars
  {
    FormatMap(s, Restrict(vars, ListVariables(s)))
  }

  /** Two variable maps that agree on `names`: the same names bound, to the same values. */
  ghost predicate AgreeOn(v: map<string, string>, w: map<string, string>, names: set<string>)
  {
    forall x :: x in names ==> (x in v <==> x in w) && (x in v ==> v[x] == w[x])
  }

  /** `format_map` looks up only names that `list_variables` reports. */
  lemma {:induction false} FormatMapReadsOnlyListed(s: string, v: map<string, string>, w: map<string, string>)
    requires AgreeOn(v, w, ListVariables(s))
    ensures FormatMap(s, v) == FormatMap(s, w)
    decreases |s|
  {
    if s != [] {
      if s[0] == '{' && NextBrace(s, 1) < |s| && s[NextBrace(s, 1)] == '}' {
        FormatMapReadsOnlyListed(s[NextBrace(s, 1) + 1..], v, w);
      } else {
        FormatMapReadsOnlyListed(s[1..], v, w);
      }
    }
  }

  /**
   * The narrowing in `fill_variables` cannot be observed: it gives what
   * `format_map` gives on the full variable map.
   */
  lemma NarrowingIsUnobservable(s: string, vars: map<string, string>)
    ensures FillVariables(s, vars) == FormatMap(s, vars)
  {
    FormatMapReadsOnlyListed(s, vars, Restrict(vars, ListVariables(s)));
  }

  /**
   * `fill_variables` ignores extra entries: its result depends only on the
   * bindings of the names the string references.
   */
  lemma ExtraVariablesIgnored(s: string, v: map<string, string>, w: map<string, string>)
    requires AgreeOn(v, w, ListVariables(s))
    ensures FillVariables(s, v) == FillVariables(s, w)
  {
    NarrowingIsUnobservable(s, v);
    NarrowingIsUnobservable(s, w);
    FormatMapReadsOnlyListed(s, v, w);
  }

  /**
   * A placeholder whose name has no value makes `fill_variables` fail rather
   * than leave the placeholder in the text.
   */
  lemma MissingVariableFails(s: string, vars: map<string, string>, x: string)
    requires x in ListVariables(s) && x !in vars
    ensures FillVariables(s, vars).Err?
  {
  }

  /**
   * A successful substitution leaves no brace of the template behind: every
   * brace in the result comes from a substituted value.
   */
  lemma {:induction false} FilledTextIsBraceFree(s: string, vars: map<string, string>)
    requires forall x :: x in vars ==> BraceFree(vars[x])
    requires FormatMap(s, vars).Ok?
    ensures BraceFree(FormatMap(s, vars).value)
    decreases |s|
  {
    if s != [] {
      if s[0] == '{' {
        FilledTextIsBraceFree(s[NextBrace(s, 1) + 1..], vars);
      } else {
        FilledTextIsBraceFree(s[1..], vars);
      }
    }
  }

  // A reference semantics: a template as a list of literal texts and placeholders.

  datatype Segment = Literal(text: string) | Placeholder(name: string)

  /**
   * A field of Arabic-Indic digits is positional, as `{3}` is: `format_map`
   * raises `ValueError` even when the dict has that key.
   */
  lemma ArabicIndicFieldIsPositional()
    ensures FormatMap("{\U{663}}", map["\U{663}" := "x"]) == Err(FormatError)
  {
    var s := "{\U{663}}";
    assert NextBrace(s, 1) == 2 by {
      assert NextBrace(s, 2) == 2;
    }
    assert s[1..2] == "\U{663}";
  }

  /** The segments a template in the modelled fragment is made of. */
  predicate WellFormed(segs: seq<Segment>)
  {
    forall k :: 0 <= k < |segs| ==>
      match segs[k]
      case Literal(t) => BraceFree(t)
      case Placeholder(x) => IsPlainName(x)
  }

  /** The template text: each placeholder written as `{name}`. */
  function Unparse(segs: seq<Segment>): string
  {
    if segs == [] then ""
    else
      match segs[0]
      case Literal(t) => t + Unparse(segs[1..])
      case Placeholder(x) => "{" + x + "}" + Unparse(segs[1..])
  }

  function Names(segs: seq<Segment>): set<string>
  {
    if segs == [] then {}
    else
      match segs[0]
      case Literal(_) => Names(segs[1..])
      case Placeholder(x) => {x} + Names(segs[1..])
  }

  /**
   * Each placeholder replaced by its value, from left to right; the first
   * placeholder without a value is reported.
   */
  function Substitute(segs: seq<Segment>, vars: map<string, string>): (r: Result<string, FillError>)
    ensures r.Ok? <==> Names(segs) <= vars.Keys
    ensures r.Err? ==> r.error.UndefinedName? && r.error.name in Names(segs) && r.error.name !in vars
  {
    if segs == [] then Ok("")
    else
      var rest := Substitute(segs[1..], vars);
      match segs[0]
      case Literal(t) =>
        (match rest
         case Ok(u) => Ok(t + u)
         case Err(e) => Err(e))
      case Placeholder(x) =>
        if x !in vars then Err(UndefinedName(x))
        else
          match rest
          case Ok(u) => Ok(vars[x] + u)
          case Err(e) => Err(e)
  }

  lemma {:induction false} FormatMapSkipsLiteral(t: string, u: string, vars: map<string, string>)
    requires BraceFree(t)
    ensures FormatMap(t + u, vars) == (match FormatMap(u, vars) case Ok(r) => Ok(t + r) case Err(e) => Err(e))
  {
    if t == [] {
      assert t + u == u;
      match FormatMap(u, vars)
      case Ok(r) =>
        assert t + r == r;
      case Err(_) =>
    } else {
      var s := t + u;
      assert !IsBrace(t[0]) && BraceFree(t[1..]);
      assert s[0] == t[0] && s[1..] == t[1..] + u;
      FormatMapSkipsLiteral(t[1..], u, vars);
      match FormatMap(u, vars)
      case Ok(r) =>
        assert FormatMap(s[1..], vars) == Ok(t[1..] + r);
        assert [t[0]] + (t[1..] + r) == t + r;
      case Err(_) =>
    }
  }

  lemma ListVariablesSkipsLiteral(t: string, u: string)
    requires BraceFree(t)
    ensures ListVariables(t + u) == ListVariables(u)
    decreases |t|
  {
    if t == [] {
      assert t + u == u;
    } else {
      var s := t + u;
      assert !IsBrace(t[0]) && BraceFree(t[1..]);
      assert s[0] == t[0] && s[1..] == t[1..] + u;
      ListVariablesSkipsLiteral(t[1..], u);
      assert ListVariables(s) == ListVariables(s[1..]);
    }
  }

  /** `list_variables` of a template in the fragment: exactly its placeholders' names. */
  lemma {:induction false} ListVariablesOfSegments(segs: seq<Segment>)
    requires WellFormed(segs)
    ensures ListVariables(Unparse(segs)) == Names(segs)
  {
    if segs != [] {
      ListVariablesOfSegments(segs[1..]);
      var u := Unparse(segs[1..]);
      match segs[0]
      case Literal(t) =>
        ListVariablesSkipsLiteral(t, u);
      case Placeholder(x) =>
        var s := "{" + x + "}" + u;
        assert s[1..|x| + 1] == x;
        NextBraceCloses(s, x);
        assert s[|x| + 2..] == u;
    }
  }

  /**
   * On a template in the fragment, `fill_variables` replaces each `{name}` by
   * the value of `name`, and fails with the first placeholder that has none.
   */
  lemma {:induction false} FillVariablesSubstitutes(segs: seq<Segment>, vars: map<string, string>)
    requires WellFormed(segs)
    ensures FillVariables(Unparse(segs), vars) == Substitute(segs, vars)
  {
    NarrowingIsUnobservable(Unparse(segs), vars);
    FormatMapSubstitutes(segs, vars);
  }

  lemma {:induction false} FormatMapSubstitutes(segs: seq<Segment>, vars: map<string, string>)
    requires WellFormed(segs)
    ensures FormatMap(Unparse(segs), vars) == Substitute(segs, vars)
  {
    if segs != [] {
      FormatMapSubstitutes(segs[1..], vars);
      var u := Unparse(segs[1..]);
      match segs[0]
      case Literal(t) =>
        FormatMapSkipsLiteral(t, u, vars);
      case Placeholder(x) =>
        FormatMapField(x, u, vars);
    }
  }

  /** `format_map` replaces a leading `{x}` by the value of `x`, or fails when `x` has none. */
  lemma FormatMapField(x: string, u: string, vars: map<string, string>)
    requires IsPlainName(x)
    ensures FormatMap("{" + x + "}" + u, vars) ==
      if x !in vars then Err(UndefinedName(x))
      else match FormatMap(u, vars) case Ok(r) => Ok(vars[x] + r) case Err(e) => Err(e)
  {
    var s := "{" + x + "}" + u;
    assert s[1..|x| + 1] == x;
    NextBraceCloses(s, x);
    assert s[|x| + 2..] == u;
  }
}
