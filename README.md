# Mailer text core in Dafny

This project models the text-processing core of the mass mailer in
`mailer/main.py`:

- The template parser `parse_template` works over the template's lines. It
  keeps a `current_part` cursor and a five-section dict (`From`, `To`, `Cc`,
  `Subject`, `Body`), and fills an expression table from `<Expressions>` lines.
- The placeholder engine is made of four functions:
  - `list_variables`, the regular-expression scan for `{name}`;
  - `replace_placeholders`, which is `str.format_map`;
  - `fill_variables`, which narrows the variable dict, then substitutes;
  - `fill_placeholders`, which evaluates the expressions per recipient, merges
    the results into the recipient's dict in place, and fills every section.
- The two body renderings are the plain-text body, whose line breaks are doubled
  (line 65), and the HTML body of `html_body`.

Modules, one file each:

- `Wrappers` (`wrappers.dfy`): `Option` and `Result`.
- `Strings` (`strings.dfy`): the pieces of Python's `str` that the mailer calls.
  They are `strip` (over CPython's full whitespace set), `startswith`, `split`
  on one character, `join`, `replace`, and the `replace` used to undo a rendering.
- `Dict` (`dict.dfy`): a Python dict whose insertion order can be observed,
  modelled as an association list. `Put` is `d[k] = v`: it overwrites in place,
  or appends a new key at the end.
- `Placeholders` (`placeholders.dfy`): `list_variables`, `format_map` and
  `fill_variables`. It also defines a reference semantics: a template as a
  sequence of literal and placeholder segments.
- `Substitution` (`substitution.dfy`): `fill_placeholders`. The recipient's
  variables are a class `Variables`, because the source updates the caller's
  dict in place.
- `TemplateParser` (`template_parser.dfy`): `parse_template`.
  - It is an imperative loop, `ParseTemplate`, whose body is `ParseLine`.
  - The loop is proved against specification functions of the lines seen so
    far: `CurrentPart`, `HeaderValue`, `BodyText`, `ExpressionTable` and
    `PartsAfter`.
  - Lemmas say what those functions mean.
- `MailBody` (`mail_body.dfy`): the plain-text body of line 65 and `html_body`,
  with the HTML text kept character for character.

Python's `eval` is a parameter `eval: string -> Option<string>`. It gives the
text of the value, or `None` when evaluation raises. A Python exception that
escapes is an `Err` result:

- `ParseError` for the `IndexError` that `expr[1]` raises on an `<Expressions>`
  line with no `;`;
- `Failure` and `FillError` for the `KeyError` and `ValueError` of `format_map`,
  and for an exception raised by `eval`.

Two details of the code that the model keeps exactly:

- Expression value: an `<Expressions>` value is field 1 of `split(';')`
  (`mailer/main.py:110-112`). That is the text between the first and the second
  `;`, so any text after a second `;` is dropped.
  `TemplateParser.BindingFields` states this.
- Stripping: `str.strip()` (`mailer/main.py:106`) removes every character for
  which `str.isspace` holds, not only spaces. `Strings.IsSpace` lists that set.

## Model

| member | source | states |
|---|---|---|
| TemplateParser.ParseTemplate | mailer/main.py:92-131 | The first `<Expressions>` line without `;` makes the parse fail with that line's index, and every earlier line has a value. On success, every line has a value, and the sections and expression table are exactly those the specification functions give after all lines. |
| TemplateParser.ParseLine | mailer/main.py:106-130 | One loop pass turns the parser state after the earlier lines into the state after this line. It fails exactly on an `<Expressions>` line without `;`. |
| TemplateParser.TemplateSections | mailer/main.py:95-131 | The returned sections have exactly the keys `From`, `To`, `Cc`, `Subject`, `Body`, in that order. Each header holds its header value and `Body` holds the body text. |
| TemplateParser.PartsAfterTracks | mailer/main.py:95-130 | Updating the section dict line by line keeps the five keys, and each section equals its specification value. |
| TemplateParser.HeaderValueIsLast | mailer/main.py:114-125 | A header section holds the value of the last line that sets it: a later marker of the same kind overwrites. |
| TemplateParser.HeaderValueDefault | mailer/main.py:95-101 | A header section that no line sets keeps its initial `''`. |
| TemplateParser.CurrentPartIsLastMarker | mailer/main.py:114-128 | `current_part` is the section named by the last header or `<Body>` line. |
| TemplateParser.CurrentPart | mailer/main.py:102-128 | `current_part` after some lines is `None` exactly when none of them is a header or `<Body>` line. |
| TemplateParser.HeaderValue | mailer/main.py:95-125 | A header section is `''` or the value carried by some line that sets that header. |
| TemplateParser.BodyText | mailer/main.py:126-130 | The body text is empty or ends with a line break. |
| TemplateParser.PartsAfter | mailer/main.py:95-130 | The section dict after some lines always has a `Body` key. Its partner `PartsAfterTracks` ties it to the other specification functions. |
| TemplateParser.BodyTextIsConcat | mailer/main.py:126-130 | `Body` is the concatenation, in line order, of `line + '\n'` for every stripped plain line that comes while the body is the current part. Every other line adds nothing. |
| TemplateParser.CurrentPartNeverBody | mailer/main.py:114-130 | For lines as the parser classifies them (every header names one of the four header sections), without a `<Body>` line the body never becomes the current part, and `Body` stays `''`. The lines before the first marker are dropped. |
| TemplateParser.ExpressionTableNames | mailer/main.py:109-113 | A name is in the expression table exactly when some `<Expressions>` line binds it. |
| TemplateParser.ExpressionTableLastWins | mailer/main.py:113 | A repeated expression name keeps the value of its last binding line. |
| TemplateParser.ExpressionTable | mailer/main.py:103-113 | Each name appears once in the expression table. |
| TemplateParser.Binding | mailer/main.py:109-112 | An expression line gives a binding exactly when its rest contains a `;`. |
| TemplateParser.BindingFields | mailer/main.py:110-112 | An `<Expressions>` line binds the stripped text before its first `;` to the stripped text between its first and second `;`. A third field is ignored. |
| TemplateParser.ClassifyExpressionLine | mailer/main.py:106-110 | A line that strips to `<Expressions>` followed by a rest is an expression line carrying that rest, whatever whitespace surrounds it. |
| TemplateParser.ClassifyHeaderLine | mailer/main.py:106-125 | A `<From>`, `<To>`, `<Cc>` or `<Subject>` line, with any whitespace around it and before its value, is a header for that section. Its value is the remainder after the tag, stripped. |
| TemplateParser.HeaderTag | mailer/main.py:114-125 | A recognised header tag names one of the four header sections, and the stripped line starts with that tag. |
| TemplateParser.ClassifyStripped | mailer/main.py:107-130 | The tests on the stripped line, in source order. A header kind only ever names one of the four header sections. |
| TemplateParser.Classify | mailer/main.py:106-130 | The `if`/`elif` chain on the stripped line. A header kind only ever names one of the four header sections. |
| Dict.Put | mailer/main.py:113 | `d[k] = v`: an existing key keeps its place and a new key goes last. `k` then maps to `v`, and every other key keeps its value. |
| Dict.Get | mailer/main.py:130 | `d[k]` on a present key gives a value stored with `k`. |
| Dict.CollectKeys | mailer/main.py:109-113 | After a run of dict assignments, a key is present exactly when some step assigned it. |
| Dict.CollectLastWins | mailer/main.py:113 | After a run of dict assignments, a key holds the value of its last assignment. |
| Dict.CollectUnique | mailer/main.py:103-113 | A dict built by assignments lists each key once. |
| Dict.ToMap | mailer/main.py:39-40 | The dict as a map: the same keys, and each key's value. |
| Placeholders.ListVariables | mailer/main.py:18-21 | Every name found is brace-free. `ListVariablesSpec` gives the exact set. |
| Placeholders.FormatMap | mailer/main.py:23-26 | On success every listed name has a value. A `KeyError` names a listed name that has no value. |
| Placeholders.Restrict | mailer/main.py:33 | The narrowed dict has exactly the keys of the variables that are among the names, each with its value. |
| Placeholders.FillVariables | mailer/main.py:28-34 | On success every listed name has a value. A `KeyError` names a listed name that has no value. |
| Placeholders.ArabicIndicFieldIsPositional | mailer/main.py:23-26 | A field named by a non-ASCII decimal digit, such as ARABIC-INDIC DIGIT THREE, is positional: `format_map` raises `ValueError` even when the dict has that key. |
| Placeholders.ListVariablesSpec | mailer/main.py:18-21 | `list_variables(s)` is exactly the set of brace-free `x` such that `{x}` occurs in `s`. |
| Placeholders.NextBrace | mailer/main.py:20 | The `[^{}]*` run of the regular expression: it is brace-free and ends at the next brace or at the end. |
| Placeholders.ListVariablesOfSegments | mailer/main.py:18-21 | On a template built from literals and `{name}` fields, `list_variables` is exactly the set of field names. |
| Placeholders.FillVariablesSubstitutes | mailer/main.py:28-34 | On such a template, `fill_variables` replaces each `{name}` by the value of `name` from left to right. When some name has no value, it fails with the first such name. |
| Placeholders.FormatMapSubstitutes | mailer/main.py:23-26 | `format_map` on such a template is the segment-wise substitution. |
| Placeholders.Substitute | mailer/main.py:23-26 | Substitution succeeds exactly when every field name has a value. Otherwise it fails on a field name that has none. |
| Placeholders.NarrowingIsUnobservable | mailer/main.py:28-34 | Narrowing the variables to the listed names gives the same result as `format_map` on the full dict. |
| Placeholders.ExtraVariablesIgnored | mailer/main.py:28-34 | The result of `fill_variables` depends only on the bindings of the names the string references. |
| Placeholders.FormatMapReadsOnlyListed | mailer/main.py:23-26 | `format_map` gives the same result on any two dicts that agree on the names `list_variables` reports. |
| Placeholders.MissingVariableFails | mailer/main.py:28-34 | A referenced name missing from the variables makes `fill_variables` fail instead of leaving the placeholder in the text. |
| Placeholders.FilledTextIsBraceFree | mailer/main.py:23-26 | When no substituted value has a brace, a successful fill has no brace: no `{...}` survives. |
| Placeholders.FormatMapSkipsLiteral | mailer/main.py:23-26 | `format_map` copies brace-free literal text unchanged. |
| Substitution.FillPlaceholders | mailer/main.py:36-41 | When an expression fails, that failure is returned and the recipient's dict is unchanged. Otherwise the dict becomes the recipient's variables updated with the expression results, and the result is every section filled from the merged dict. |
| Substitution.Variables.Update | mailer/main.py:40 | `dict.update`: every binding of the argument is added or overrides, and every other binding is kept. |
| Substitution.Variables.constructor | mailer/main.py:150-151 | A recipient's dict holds the row it was built from. |
| Substitution.ExpressionFailure | mailer/main.py:39 | A failure of one expression entry is a fill or `eval` failure under that entry's name. A missing variable it reports is referenced by the expression and absent from the recipient's variables. |
| Substitution.EvaluateExpressions | mailer/main.py:39 | The evaluated table has the expression names, in order. |
| Substitution.EvaluateExpressionsValues | mailer/main.py:39 | Evaluation succeeds exactly when no expression fails. Entry `i` is then the `eval` of expression `i` filled from the recipient's variables. |
| Substitution.EvaluateExpressionsFirstFailure | mailer/main.py:39 | A failed evaluation raises the failure of the first expression that fails. |
| Substitution.FillSections | mailer/main.py:41 | The filled sections have exactly the keys of `email_parts`, in order. |
| Substitution.FillSectionsValues | mailer/main.py:41 | Filling succeeds exactly when each section can be filled. Section `i` of the result is then section `i` filled. |
| Substitution.FillSectionsFirstFailure | mailer/main.py:41 | A failed fill names the first section that cannot be filled, with its cause. |
| Substitution.FillSectionsBraceFree | mailer/main.py:41 | When each section is built from literals and `{name}` fields whose names all have values, and no value holds a brace, filling succeeds and no filled section has a brace left. |
| Substitution.ExpressionSeesOnlyRecipient | mailer/main.py:39 | An expression that references a name absent from the recipient's own variables fails the expression step, even when another expression has that name. |
| Substitution.ExpressionResultsOverride | mailer/main.py:39-40 | After the merge, each expression name maps to its evaluated value and overrides a same-named recipient variable. Every other recipient variable keeps its value. |
| Substitution.WorkedExampleExpression | mailer/main.py:39 | For a recipient with `n` = `3`, the expression `{n} * 2` is filled to `3 * 2` before it is evaluated. |
| Substitution.WorkedExampleMissingVariable | mailer/main.py:39 | Without `n`, the same expression fails with an undefined `n`. |
| Substitution.WorkedExampleBody | mailer/main.py:41 | The body `Hi {name}, total={x}` is filled from the merged variables to `Hi Ana, total=6`. |
| MailBody.BodiesJoinLines | mailer/main.py:65-79 | The plain-text body is the body's lines joined with a blank line. The HTML text is the same lines joined with `<br><br>`. |
| MailBody.PlainTextBody | mailer/main.py:65 | Turning each `\n\n` of the plain-text body back into `\n` gives the body. No line break is lost or invented. |
| MailBody.HtmlText | mailer/main.py:79 | The HTML text has no line break left. |
| MailBody.HtmlTextRoundTrip | mailer/main.py:79 | For a body without `<`, turning each `<br><br>` of the HTML text back into `\n` gives the body. |
| MailBody.HtmlBody | mailer/main.py:72-85 | The HTML page starts with the fixed head, immediately followed by the body's HTML text. It holds the signature verbatim and unescaped, immediately after `<footer>` and immediately before `</footer>`. |
| Strings.Trim | mailer/main.py:106 | `strip` never lengthens a string, and what it returns is empty or starts and ends with non-whitespace. |
| Strings.TrimFindsCore | mailer/main.py:106 | `strip` returns the part between the leading and the trailing whitespace. |
| Strings.TrimStart | mailer/main.py:106 | `lstrip` drops a whitespace prefix and leaves a string that starts with non-whitespace, or an empty string. |
| Strings.TrimEnd | mailer/main.py:106 | `rstrip` drops a whitespace suffix and leaves a string that ends with non-whitespace, or an empty string. |
| Strings.StartsWith | mailer/main.py:107-126 | `startswith(p)` holds exactly when `p` is no longer than the string and agrees with it at every position. |
| Strings.Split | mailer/main.py:110 | `split(sep)` gives at least one piece. No piece contains `sep`, and joining the pieces with `sep` gives the string back. |
| Strings.SplitFindsSeparator | mailer/main.py:110-112 | `split(';')` has a second field exactly when the line has a `;`. |
| Strings.ReplaceChar | mailer/main.py:65 | `replace(c, t)` leaves no `c` when `t` has none, and changes nothing when `c` does not occur. |
| Strings.ReplaceIsJoinOfSplit | mailer/main.py:65 | `s.replace(c, t) == t.join(s.split(c))`. |
| Strings.ReplaceAllUndoesReplaceChar | mailer/main.py:65-79 | Replacing `c` by `pat` is undone by replacing `pat` by `c`, when no other character of the text can start `pat`. |

## Left out

- SMTP sending, reconnecting and the per-message error report (`mailer/main.py:154-173`): network I/O through the standard mail client.
- Pacing with `random.uniform` and `time.sleep` (`mailer/main.py:165-168`): randomness, floating point and blocking.
- `gather_smtp_info` (`mailer/main.py:44-54`): interactive input of credentials.
- `read_file`, the `open` in `parse_template` and `get_csv_data` (`mailer/main.py:87-90`, 104 and 133-139): file I/O and CSV parsing.
  - The template is given as its sequence of lines, without line terminators. Splitting the file into lines (universal newlines) is not modelled.
  - A recipient row is given as a map.
- `EmailMessage` construction in `build_mail` (`mailer/main.py:56-70`): headers, attachment and MIME alternatives are standard-library calls. Only the two body strings are modelled.
- `main` and its loop over the recipients (`mailer/main.py:141-152`, 175): they sequence the modelled operations and the I/O above.
- `eval` (`mailer/main.py:39`) runs arbitrary Python. It is a parameter that gives the text of the value.
  - The parameter fixes one deterministic result per expression text for the whole call.
  - In the source, `eval` runs inside the dict comprehension. It can read `k`, `v`, `variables` and the module's globals, it can be nondeterministic, and it can change `variables` before later entries are filled. None of that is modelled.
  - Python's `format` of a non-string result is part of that parameter.
- `str.format_map` outside plain `{name}` fields: the `{{` and `}}` escapes, format specs, conversions, and attribute or index lookups give `Unsupported`.
  - Positional fields, a lone brace and an unclosed field give `FormatError`, as Python raises `ValueError`. The exception message text is not modelled.
  - A field is positional when its name is empty or made only of Unicode decimal digits (category Nd, as of Unicode 15.0), in any script.
- Substitution.FillPlaceholders: only the caller's dict is modelled as shared state. Other aliasing of the recipient rows is not.
- MailBody.HtmlTextRoundTrip: it requires a body without `<`, because a body that already contains `<br><br>` cannot be told apart after rendering.
- MailBody.HtmlBody: its contract locates the head, the body text and the signature inside the page. The other fixed pieces (`ParagraphEnd`, `DocumentEnd`) are given exactly by `HtmlBody` and are not restated.
- Line 79 writes `'\n'` inside an f-string replacement field. Python accepts this only from version 3.12; earlier versions reject the file. The model gives the text that version 3.12 produces.
