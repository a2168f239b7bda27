/**
 * `parse_template` of mailer/main.py over the template's lines. Each line is
 * stripped, then: a `#` line is a comment; an `<Expressions>name;value`
 * line binds an expression; a `<From>`, `<To>`, `<Cc>` or `<Subject>` line
 * sets that section to the stripped rest of the line and makes it the
 * current part; a `<Body>` line makes the body the current part; any other
 * line is appended, with a line break, to the body while the body is the
 * current part, and dropped otherwise.
 */
module TemplateParser {
  import opened Wrappers
  import opened Strings
  import opened Dict

  /** The sections of an email, in the order of the dict `parse_template` starts from. */
  const SectionKeys: seq<string> := ["From", "To", "Cc", "Subject", "Body"]

  const InitialParts: seq<(string, string)> := [("From", ""), ("To", ""), ("Cc", ""), ("Subject", ""), ("Body", "")]

  /** What one template line is, decided in the order of the `if`/`elif` chain. */
  datatype LineKind =
    | Comment
    | ExpressionDef(rest: string)          // the line after <Expressions>
    | Header(key: string, value: string)   // a <From>, <To>, <Cc> or <Subject> line
    | BodyMarker
    | Plain(content: string)               // any other line, stripped

  /** The header section a stripped line opens: its tag is the key in angle brackets. */
  function HeaderTag(t: string): (key: Option<string>)
    ensures key.Some? ==> IsHeaderKey(key.value) && StartsWith(t, "<" + key.value + ">")
  {
    if StartsWith(t, "<From>") then Some("From")
    else if StartsWith(t, "<To>") then Some("To")
    else if StartsWith(t, "<Cc>") then Some("Cc")
    else if StartsWith(t, "<Subject>") then Some("Subject")
    else None
  }

  /** A template line: the line is stripped and then classified. */
  function Classify(line: string): (kind: LineKind)
    ensures kind.Header? ==> IsHeaderKey(kind.key)
  {
    ClassifyStripped(Trim(line))
  }

  /** The `if`/`elif` chain of `parse_template` on a stripped line `t`. */
  function ClassifyStripped(t: string): (kind: LineKind)
    ensures kind.Header? ==> IsHeaderKey(kind.key)
  {
    if StartsWith(t, "#") then Comment
    else if StartsWith(t, "<Expressions>") then ExpressionDef(t[13..])
    else match HeaderTag(t)
      case Some(key) => Header(key, Trim(t[|key| + 2..]))
      case None => if StartsWith(t, "<Body>") then BodyMarker else Plain(t)
  }

  /** The sections a header line can set. */
  predicate IsHeaderKey(k: string)
  {
    k == "From" || k == "To" || k == "Cc" || k == "Subject"
  }

  datatype Template = Template(parts: seq<(string, string)>, expressions: seq<(string, string)>)

  /** `expr[1]` raises IndexError on an `<Expressions>` line without `;`; `line` is its index. */
  datatype ParseError = ExpressionWithoutValue(line: nat)

  /** An `<Expressions>` line with no `;`. */
  predicate LacksValue(kind: LineKind)
  {
    kind.ExpressionDef? && ';' !in kind.rest
  }

  /** No line lacks a value. */
  predicate AllHaveValues(kinds: seq<LineKind>)
  {
    forall j :: 0 <= j < |kinds| ==> !LacksValue(kinds[j])
  }

  /** Line `i` is the first `<Expressions>` line without `;`. */
  predicate FirstWithoutValue(kinds: seq<LineKind>, i: nat)
  {
    i < |kinds| && LacksValue(kinds[i]) && forall j :: 0 <= j < i ==> !LacksValue(kinds[j])
  }

  /** A line that changes the current part. */
  predicate IsSectionMarker(kind: LineKind)
  {
    kind.Header? || kind.BodyMarker?
  }

  /** The part a section marker makes current. */
  function MarkerPart(kind: LineKind): string
    requires IsSectionMarker(kind)
  {
    if kind.Header? then kind.key else "Body"
  }

  /** A header line for section `key`. */
  predicate SetsHeader(kind: LineKind, key: string)
  {
    kind.Header? && kind.key == key
  }

  /**
   * The name and value an `<Expressions>` line binds: the stripped first and
   * second `;`-separated fields of the rest of the line.
   */
  function Binding(kind: LineKind): (b: Option<(string, string)>)
    ensures b.Some? <==> kind.ExpressionDef? && !LacksValue(kind)
  {
    if kind.ExpressionDef? then
      var fields := Split(kind.rest, ';');
      SplitFindsSeparator(kind.rest, ';');
      if |fields| >= 2 then Some((Trim(fields[0]), Trim(fields[1]))) else None
    else None
  }

  /**
   * An `<Expressions>` line binds the stripped text before its first `;` to
   * the stripped text between its first and second `;`; anything after a
   * second `;` is ignored.
   */
  lemma BindingFields(name: string, value: string, tail: string)
    requires ';' !in name && ';' !in value
    requires tail == [] || tail[0] == ';'
    ensures Binding(ExpressionDef(name + ";" + value + tail)) == Some((Trim(name), Trim(value)))
  {
    assert name + ";" + value + tail == name + [';'] + (value + tail);
    SplitAtFirst(name, ';', value + tail);
    if tail == [] {
      assert value + tail == value;
      SplitWithoutSeparator(value, ';');
    } else {
      assert value + tail == value + [';'] + tail[1..];
      SplitAtFirst(value, ';', tail[1..]);
    }
  }

  /** An `<Expressions>` line, whatever whitespace surrounds it, is classified with its rest. */
  lemma ClassifyExpressionLine(lead: string, rest: string, trail: string)
    requires AllSpace(lead) && AllSpace(trail)
    requires rest == [] || !IsSpace(rest[|rest| - 1])
    ensures Classify(lead + "<Expressions>" + rest + trail) == ExpressionDef(rest)
  {
    var core := "<Expressions>" + rest;
    assert lead + "<Expressions>" + rest + trail == lead + core + trail;
    TrimFindsCore(lead, core, trail);
    ClassifyExpressionTag(rest);
  }

  lemma ClassifyExpressionTag(rest: string)
    ensures ClassifyStripped("<Expressions>" + rest) == ExpressionDef(rest)
  {
    var t := "<Expressions>" + rest;
    assert t[..13] == "<Expressions>" && t[13..] == rest;
    DiffersAt(t, "#", 0);
  }

  /** The tag that opens a section: its key in angle brackets. */
  function Tag(key: string): string
  {
    "<" + key + ">"
  }

  /** A stripped line opening with a header's tag is recognised as that header. */
  lemma HeaderTagOf(key: string, rest: string)
    requires IsHeaderKey(key)
    ensures !StartsWith(Tag(key) + rest, "#") && !StartsWith(Tag(key) + rest, "<Expressions>")
    ensures HeaderTag(Tag(key) + rest) == Some(key)
  {
    var t := Tag(key) + rest;
    assert t[..|key| + 2] == Tag(key);
    assert t[0] == '<' && t[1] == key[0];
    DiffersAt(t, "#", 0);
    DiffersAt(t, "<Expressions>", 1);
    if key != "From" {
      DiffersAt(t, "<From>", 1);
      if key != "To" {
        DiffersAt(t, "<To>", 1);
        if key != "Cc" {
          DiffersAt(t, "<Cc>", 1);
        }
      }
    }
  }

  /** Stripping a header line leaves its tag and its value, and the gap between them when there is a value. */
  lemma StripHeaderLine(key: string, lead: string, gap: string, value: string, trail: string)
    requires AllSpace(lead) && AllSpace(gap) && AllSpace(trail)
    requires value == [] || (!IsSpace(value[0]) && !IsSpace(value[|value| - 1]))
    ensures Trim(lead + Tag(key) + gap + value + trail) == if value == [] then Tag(key) else Tag(key) + gap + value
  {
    var line := lead + Tag(key) + gap + value + trail;
    if value == [] {
      assert line == lead + Tag(key) + (gap + trail);
      TrimFindsCore(lead, Tag(key), gap + trail);
    } else {
      assert line == lead + (Tag(key) + gap + value) + trail;
      TrimFindsCore(lead, Tag(key) + gap + value, trail);
    }
  }

  /**
   * A header line, whatever whitespace surrounds it and its value, is
   * classified as a header for its section with the value stripped.
   */
  lemma ClassifyHeaderLine(key: string, lead: string, gap: string, value: string, trail: string)
    requires IsHeaderKey(key)
    requires AllSpace(lead) && AllSpace(gap) && AllSpace(trail)
    requires value == [] || (!IsSpace(value[0]) && !IsSpace(value[|value| - 1]))
    ensures Classify(lead + Tag(key) + gap + value + trail) == Header(key, value)
  {
    StripHeaderLine(key, lead, gap, value, trail);
    if value == [] {
      assert Tag(key) + [] + [] == Tag(key);
      ClassifyHeaderTag(key, [], []);
    } else {
      ClassifyHeaderTag(key, gap, value);
    }
  }

  lemma ClassifyHeaderTag(key: string, gap: string, value: string)
    requires IsHeaderKey(key)
    requires AllSpace(gap)
    requires value == [] || (!IsSpace(value[0]) && !IsSpace(value[|value| - 1]))
    ensures ClassifyStripped(Tag(key) + gap + value) == Header(key, value)
  {
    var t := Tag(key) + gap + value;
    assert |key| + 2 <= |t| && !StartsWith(t, "#") && !StartsWith(t, "<Expressions>") && HeaderTag(t) == Some(key) by {
      assert t == Tag(key) + (gap + value);
      HeaderTagOf(key, gap + value);
    }
    assert Trim(t[|key| + 2..]) == value by {
      assert t[|key| + 2..] == gap + value + [];
      TrimFindsCore(gap, value, []);
    }
    ClassifyStrippedHeader(t, key);
  }

  lemma ClassifyStrippedHeader(t: string, key: string)
    requires !StartsWith(t, "#") && !StartsWith(t, "<Expressions>") && HeaderTag(t) == Some(key)
    requires |key| + 2 <= |t|
    ensures ClassifyStripped(t) == Header(key, Trim(t[|key| + 2..]))
  {
  }

  /** `f` applied to every element of `s`, in order. */
  function MapSeq<A, B>(f: A -> B, s: seq<A>): (r: seq<B>)
    ensures |r| == |s|
  {
    if s == [] then [] else MapSeq(f, s[..|s| - 1]) + [f(s[|s| - 1])]
  }

  lemma {:induction false} MapSeqAt<A, B>(f: A -> B, s: seq<A>, i: nat)
    requires i < |s|
    ensures MapSeq(f, s)[i] == f(s[i])
  {
    if i < |s| - 1 {
      var init := s[..|s| - 1];
      MapSeqAt(f, init, i);
      assert init[i] == s[i];
    }
  }

  /** Mapping a prefix gives a prefix of the mapped sequence. */
  lemma {:induction false} MapSeqPrefix<A, B>(f: A -> B, s: seq<A>, n: nat)
    requires n <= |s|
    ensures MapSeq(f, s[..n]) == MapSeq(f, s)[..n]
  {
    if n < |s| {
      var init := s[..|s| - 1];
      MapSeqPrefix(f, init, n);
      assert init[..n] == s[..n];
    } else {
      assert s[..n] == s;
    }
  }

  lemma MapSeqSnoc<A, B>(f: A -> B, s: seq<A>, i: nat)
    requires i < |s|
    ensures MapSeq(f, s[..i + 1]) == MapSeq(f, s[..i]) + [f(s[i])]
  {
    assert s[..i + 1][..i] == s[..i];
  }

  /** Every line of the template, classified. */
  function Kinds(lines: seq<string>): (kinds: seq<LineKind>)
    ensures |kinds| == |lines|
  {
    MapSeq(Classify, lines)
  }

  /** Line `i` is the first line without a value when it lacks one and the lines before it do not. */
  lemma FirstLacking(kinds: seq<LineKind>, i: nat)
    requires i < |kinds| && LacksValue(kinds[i])
    requires AllHaveValues(kinds[..i])
    ensures FirstWithoutValue(kinds, i)
  {
    assert forall j :: 0 <= j < i ==> kinds[..i][j] == kinds[j];
  }

  // The parser's state after a prefix of the classified lines, one component at a time.

  /** `current_part` after `kinds`: set by the most recent section marker, `None` before any. */
  function CurrentPart(kinds: seq<LineKind>): (part: Option<string>)
    ensures part.None? <==> forall j :: 0 <= j < |kinds| ==> !IsSectionMarker(kinds[j])
  {
    if kinds == [] then None
    else
      match kinds[|kinds| - 1]
      case Header(key, _) => Some(key)
      case BodyMarker => Some("Body")
      case _ =>
        var init := kinds[..|kinds| - 1];
        assert forall j :: 0 <= j < |init| ==> init[j] == kinds[j];
        CurrentPart(init)
  }

  /** The value of header section `key` after `kinds`: `''`, or the value some line for it gave. */
  function HeaderValue(kinds: seq<LineKind>, key: string): (value: string)
    ensures value == "" || exists i :: 0 <= i < |kinds| && SetsHeader(kinds[i], key) && kinds[i].value == value
  {
    if kinds == [] then ""
    else
      match kinds[|kinds| - 1]
      case Header(k, value) => if k == key then value else HeaderValue(kinds[..|kinds| - 1], key)
      case _ => HeaderValue(kinds[..|kinds| - 1], key)
  }

  /** The body after `kinds`: whole lines, so it is empty or ends with a line break. */
  function BodyText(kinds: seq<LineKind>): (body: string)
    ensures body == "" || body[|body| - 1] == '\n'
  {
    if kinds == [] then ""
    else
      var init := kinds[..|kinds| - 1];
      match kinds[|kinds| - 1]
      case Plain(content) => if CurrentPart(init) == Some("Body") then BodyText(init) + (content + "\n") else BodyText(init)
      case _ => BodyText(init)
  }

  /** The binding, if any, of each line. */
  function Bindings(kinds: seq<LineKind>): (bindings: seq<Option<(string, string)>>)
    ensures |bindings| == |kinds|
  {
    seq(|kinds|, i requires 0 <= i < |kinds| => Binding(kinds[i]))
  }

  /** The expression table after `kinds`: each binding assigned in turn; a name appears once. */
  function ExpressionTable(kinds: seq<LineKind>): (table: seq<(string, string)>)
    ensures UniqueKeys(table)
  {
    CollectUnique(Bindings(kinds));
    Collect(Bindings(kinds))
  }

  /** What `parts[k]` holds after `kinds`. */
  function PartValue(kinds: seq<LineKind>, k: string): string
  {
    if k == "Body" then BodyText(kinds) else HeaderValue(kinds, k)
  }

  /**
   * The sections after `kinds`, built as `parse_template` builds them: header
   * lines overwrite their section, body lines are appended while the body
   * is the current part.
   */
  function PartsAfter(kinds: seq<LineKind>): (parts: seq<(string, string)>)
    ensures "Body" in Keys(parts)
  {
    if kinds == [] then InitialParts
    else
      var init := kinds[..|kinds| - 1];
      var parts := PartsAfter(init);
      match kinds[|kinds| - 1]
      case Header(key, value) => Put(parts, key, value)
      case Plain(content) =>
        if CurrentPart(init) == Some("Body") then Put(parts, "Body", Get(parts, "Body") + (content + "\n")) else parts
      case _ => parts
  }

  // What the state after a sequence of lines is, line by line.

  /** The current part is the one the last section marker names. */
  lemma {:induction false} CurrentPartIsLastMarker(kinds: seq<LineKind>, i: nat)
    requires i < |kinds| && IsSectionMarker(kinds[i])
    requires forall j :: i < j < |kinds| ==> !IsSectionMarker(kinds[j])
    ensures CurrentPart(kinds) == Some(MarkerPart(kinds[i]))
  {
    if i < |kinds| - 1 {
      var init := kinds[..|kinds| - 1];
      assert !IsSectionMarker(kinds[|kinds| - 1]);
      forall j | i < j < |init|
        ensures !IsSectionMarker(init[j])
      {
        assert init[j] == kinds[j];
      }
      CurrentPartIsLastMarker(init, i);
    }
  }

  /** A header section holds the value of the last line for it. */
  lemma {:induction false} HeaderValueIsLast(kinds: seq<LineKind>, key: string, i: nat)
    requires i < |kinds| && SetsHeader(kinds[i], key)
    requires forall j :: i < j < |kinds| ==> !SetsHeader(kinds[j], key)
    ensures HeaderValue(kinds, key) == kinds[i].value
  {
    if i < |kinds| - 1 {
      var init := kinds[..|kinds| - 1];
      assert !SetsHeader(kinds[|kinds| - 1], key);
      forall j | i < j < |init|
        ensures !SetsHeader(init[j], key)
      {
        assert init[j] == kinds[j];
      }
      HeaderValueIsLast(init, key, i);
    }
  }

  /** A header section no line sets stays empty. */
  lemma {:induction false} HeaderValueDefault(kinds: seq<LineKind>, key: string)
    requires forall j :: 0 <= j < |kinds| ==> !SetsHeader(kinds[j], key)
    ensures HeaderValue(kinds, key) == ""
  {
    if kinds != [] {
      var init := kinds[..|kinds| - 1];
      assert !SetsHeader(kinds[|kinds| - 1], key);
      forall j | 0 <= j < |init|
        ensures !SetsHeader(init[j], key)
      {
        assert init[j] == kinds[j];
      }
      HeaderValueDefault(init, key);
    }
  }

  /** What line `i` adds to the body: itself and a line break, when it falls inside the body. */
  function BodyPiece(kinds: seq<LineKind>, i: nat): string
    requires i < |kinds|
  {
    if kinds[i].Plain? && CurrentPart(kinds[..i]) == Some("Body") then kinds[i].content + "\n" else ""
  }

  function BodyPieces(kinds: seq<LineKind>): (pieces: seq<string>)
    ensures |pieces| == |kinds|
  {
    seq(|kinds|, i requires 0 <= i < |kinds| => BodyPiece(kinds, i))
  }

  /** The pieces of all lines are those of the lines before the last, then the last line's. */
  lemma BodyPiecesSnoc(kinds: seq<LineKind>)
    requires kinds != []
    ensures BodyPieces(kinds) == BodyPieces(kinds[..|kinds| - 1]) + [BodyPiece(kinds, |kinds| - 1)]
  {
    var init := kinds[..|kinds| - 1];
    forall i | 0 <= i < |init|
      ensures BodyPiece(kinds, i) == BodyPiece(init, i)
    {
      assert kinds[..i] == init[..i];
    }
  }

  /** Each line adds its piece to the end of the body. */
  lemma BodyTextStep(kinds: seq<LineKind>)
    requires kinds != []
    ensures BodyText(kinds) == BodyText(kinds[..|kinds| - 1]) + BodyPiece(kinds, |kinds| - 1)
  {
  }

  /** The body is the concatenation, in order, of what each line adds to it. */
  lemma {:induction false} BodyTextIsConcat(kinds: seq<LineKind>)
    ensures BodyText(kinds) == Concat(BodyPieces(kinds))
  {
    if kinds != [] {
      var n := |kinds| - 1;
      var init := kinds[..n];
      var pieces := BodyPieces(kinds);
      BodyTextIsConcat(init);
      BodyTextStep(kinds);
      BodyPiecesSnoc(kinds);
      assert pieces[..n] == BodyPieces(init);
    }
  }

  /** Without a `<Body>` line the body never becomes the current part, and nothing reaches it. */
  lemma {:induction false} CurrentPartNeverBody(kinds: seq<LineKind>)
    requires HeaderKeysValid(kinds)
    requires forall j :: 0 <= j < |kinds| ==> !kinds[j].BodyMarker?
    ensures CurrentPart(kinds) != Some("Body")
    ensures BodyText(kinds) == ""
  {
    if kinds != [] {
      var init := kinds[..|kinds| - 1];
      assert !kinds[|kinds| - 1].BodyMarker?;
      assert kinds[|kinds| - 1].Header? ==> IsHeaderKey(kinds[|kinds| - 1].key);
      forall j | 0 <= j < |init|
        ensures !init[j].BodyMarker? && (init[j].Header? ==> IsHeaderKey(init[j].key))
      {
        assert init[j] == kinds[j];
      }
      CurrentPartNeverBody(init);
    }
  }

  /** A name is in the expression table exactly when some line binds it. */
  lemma ExpressionTableNames(kinds: seq<LineKind>, name: string)
    ensures name in Keys(ExpressionTable(kinds)) <==>
            exists i :: 0 <= i < |kinds| && Binding(kinds[i]).Some? && Binding(kinds[i]).value.0 == name
  {
    var bindings := Bindings(kinds);
    CollectKeys(bindings, name);
    assert forall i :: 0 <= i < |kinds| ==> (Assigns(bindings[i], name) <==> Binding(kinds[i]).Some? && Binding(kinds[i]).value.0 == name);
  }

  /** The value of a name in the expression table is the one its last binding gives. */
  lemma ExpressionTableLastWins(kinds: seq<LineKind>, i: nat)
    requires i < |kinds| && Binding(kinds[i]).Some?
    requires forall j :: i < j < |kinds| ==> Binding(kinds[j]).None? || Binding(kinds[j]).value.0 != Binding(kinds[i]).value.0
    ensures Binding(kinds[i]).value.0 in Keys(ExpressionTable(kinds))
    ensures Get(ExpressionTable(kinds), Binding(kinds[i]).value.0) == Binding(kinds[i]).value.1
  {
    var bindings := Bindings(kinds);
    assert forall j :: 0 <= j < |kinds| ==> bindings[j] == Binding(kinds[j]);
    CollectLastWins(bindings, i);
  }

  lemma ExpressionStep(kinds: seq<LineKind>, kind: LineKind)
    ensures ExpressionTable(kinds + [kind]) ==
      if Binding(kind).Some? then Put(ExpressionTable(kinds), Binding(kind).value.0, Binding(kind).value.1)
      else ExpressionTable(kinds)
  {
    var bindings := Bindings(kinds + [kind]);
    assert bindings[..|kinds|] == Bindings(kinds);
    assert bindings[|kinds|] == Binding(kind);
  }

  lemma CurrentPartStep(kinds: seq<LineKind>, kind: LineKind)
    ensures CurrentPart(kinds + [kind]) ==
      match kind
      case Header(key, _) => Some(key)
      case BodyMarker => Some("Body")
      case _ => CurrentPart(kinds)
  {
    assert (kinds + [kind])[..|kinds|] == kinds;
  }

  lemma PartsAfterStep(kinds: seq<LineKind>, kind: LineKind)
    ensures PartsAfter(kinds + [kind]) ==
      if kind.Header? then Put(PartsAfter(kinds), kind.key, kind.value)
      else if kind.Plain? && CurrentPart(kinds) == Some("Body")
      then Put(PartsAfter(kinds), "Body", Get(PartsAfter(kinds), "Body") + (kind.content + "\n"))
      else PartsAfter(kinds)
  {
    assert (kinds + [kind])[..|kinds|] == kinds;
  }

  lemma NoLackStep(kinds: seq<LineKind>, kind: LineKind)
    requires AllHaveValues(kinds) && !LacksValue(kind)
    ensures AllHaveValues(kinds + [kind])
  {
  }

  predicate HeaderKeysValid(kinds: seq<LineKind>)
  {
    forall j :: 0 <= j < |kinds| && kinds[j].Header? ==> IsHeaderKey(kinds[j].key)
  }

  /** `parts` has the five sections, each holding its value after `kinds`. */
  ghost predicate Tracks(parts: seq<(string, string)>, kinds: seq<LineKind>)
  {
    Keys(parts) == SectionKeys && forall k :: k in SectionKeys ==> Get(parts, k) == PartValue(kinds, k)
  }

  lemma TracksInitial()
    ensures Tracks(InitialParts, [])
  {
  }

  lemma TracksSections(parts: seq<(string, string)>, kinds: seq<LineKind>)
    requires Tracks(parts, kinds)
    ensures Keys(parts) == SectionKeys
    ensures Get(parts, "From") == HeaderValue(kinds, "From")
    ensures Get(parts, "To") == HeaderValue(kinds, "To")
    ensures Get(parts, "Cc") == HeaderValue(kinds, "Cc")
    ensures Get(parts, "Subject") == HeaderValue(kinds, "Subject")
    ensures Get(parts, "Body") == BodyText(kinds)
  {
  }

  lemma TracksHeader(parts: seq<(string, string)>, kinds: seq<LineKind>, key: string, value: string)
    requires Tracks(parts, kinds) && IsHeaderKey(key)
    ensures Tracks(Put(parts, key, value), kinds + [Header(key, value)])
  {
    var kinds' := kinds + [Header(key, value)];
    assert kinds'[..|kinds'| - 1] == kinds;
  }

  lemma TracksBodyLine(parts: seq<(string, string)>, kinds: seq<LineKind>, content: string)
    requires Tracks(parts, kinds) && CurrentPart(kinds) == Some("Body")
    ensures Tracks(Put(parts, "Body", Get(parts, "Body") + (content + "\n")), kinds + [Plain(content)])
  {
    var kinds' := kinds + [Plain(content)];
    var parts' := Put(parts, "Body", Get(parts, "Body") + (content + "\n"));
    assert kinds'[..|kinds'| - 1] == kinds;
    assert BodyText(kinds') == BodyText(kinds) + (content + "\n");
    forall k | k in SectionKeys
      ensures Get(parts', k) == PartValue(kinds', k)
    {
      if k != "Body" {
        assert HeaderValue(kinds', k) == HeaderValue(kinds, k);
      }
    }
  }

  lemma TracksOther(parts: seq<(string, string)>, kinds: seq<LineKind>, kind: LineKind)
    requires Tracks(parts, kinds) && !kind.Header?
    requires kind.Plain? ==> CurrentPart(kinds) != Some("Body")
    ensures Tracks(parts, kinds + [kind])
  {
    var kinds' := kinds + [kind];
    assert kinds'[..|kinds'| - 1] == kinds;
  }

  /** Building the sections line by line leaves each one holding its value. */
  lemma {:induction false} PartsAfterTracks(kinds: seq<LineKind>)
    requires HeaderKeysValid(kinds)
    ensures Tracks(PartsAfter(kinds), kinds)
  {
    if kinds == [] {
      TracksInitial();
    } else {
      var init := kinds[..|kinds| - 1];
      var kind := kinds[|kinds| - 1];
      assert kinds == init + [kind];
      assert HeaderKeysValid(init) by {
        forall j | 0 <= j < |init| && init[j].Header?
          ensures IsHeaderKey(init[j].key)
        {
          assert init[j] == kinds[j];
        }
      }
      PartsAfterTracks(init);
      var parts := PartsAfter(init);
      match kind
      case Header(key, value) =>
        TracksHeader(parts, init, key, value);
      case Plain(content) =>
        if CurrentPart(init) == Some("Body") {
          TracksBodyLine(parts, init, content);
        } else {
          TracksOther(parts, init, kind);
        }
      case _ =>
        TracksOther(parts, init, kind);
    }
  }

  lemma KindsHeaderKeysValid(lines: seq<string>)
    ensures HeaderKeysValid(Kinds(lines))
  {
    forall j | 0 <= j < |lines| && Kinds(lines)[j].Header?
      ensures IsHeaderKey(Kinds(lines)[j].key)
    {
      MapSeqAt(Classify, lines, j);
    }
  }

  /** The parser's state after the lines `seen`. */
  ghost predicate StateAfter(seen: seq<LineKind>, parts: seq<(string, string)>, current: Option<string>,
                             expressions: seq<(string, string)>)
  {
    parts == PartsAfter(seen) && current == CurrentPart(seen) && expressions == ExpressionTable(seen)
  }

  /**
   * The sections `parse_template` returns: exactly the five keys, in their
   * initial order, each header holding its last value and the body its text.
   */
  lemma TemplateSections(lines: seq<string>)
    ensures var parts := PartsAfter(Kinds(lines));
      && Keys(parts) == SectionKeys
      && Get(parts, "From") == HeaderValue(Kinds(lines), "From")
      && Get(parts, "To") == HeaderValue(Kinds(lines), "To")
      && Get(parts, "Cc") == HeaderValue(Kinds(lines), "Cc")
      && Get(parts, "Subject") == HeaderValue(Kinds(lines), "Subject")
      && Get(parts, "Body") == BodyText(Kinds(lines))
  {
    KindsHeaderKeysValid(lines);
    PartsAfterTracks(Kinds(lines));
    TracksSections(PartsAfter(Kinds(lines)), Kinds(lines));
  }

  /**
   * One pass of the loop body of `parse_template`, over a classified line:
   * the state after the lines before it becomes the state after it, or `ok`
   * is false when the line is an `<Expressions>` line without `;`.
   */
  method ParseLine(kind: LineKind, parts: seq<(string, string)>, current: Option<string>,
                   expressions: seq<(string, string)>, ghost seen: seq<LineKind>)
    returns (ok: bool, parts': seq<(string, string)>, current': Option<string>, expressions': seq<(string, string)>)
    requires StateAfter(seen, parts, current, expressions)
    ensures ok <==> !LacksValue(kind)
    ensures ok ==> StateAfter(seen + [kind], parts', current', expressions')
  {
    ExpressionStep(seen, kind);
    CurrentPartStep(seen, kind);
    PartsAfterStep(seen, kind);
    ok, parts', current', expressions' := true, parts, current, expressions;
    match kind {
      case Comment =>
      case ExpressionDef(rest) =>
        var fields := Split(rest, ';');
        SplitFindsSeparator(rest, ';');
        if |fields| < 2 {
          ok := false;
          return;
        }
        expressions' := Put(expressions, Trim(fields[0]), Trim(fields[1]));
      case Header(key, value) =>
        current' := Some(key);
        parts' := Put(parts, key, value);
      case BodyMarker =>
        current' := Some("Body");
      case Plain(content) =>
        if current == Some("Body") {
          parts' := Put(parts, "Body", Get(parts, "Body") + (content + "\n"));
        }
    }
  }

  /**
   * `parse_template` over the template's lines: the error raised by the first
   * `<Expressions>` line that has no `;`, or else the sections and the
   * expression table after all lines (`TemplateSections` says what the
   * sections hold). `Kinds(lines)[i]` is line `i` classified (`MapSeqAt`).
   */
  method ParseTemplate(lines: seq<string>) returns (r: Result<Template, ParseError>)
    ensures r.Err? ==> FirstWithoutValue(Kinds(lines), r.error.line)
    ensures r.Ok? ==> AllHaveValues(Kinds(lines))
    ensures r.Ok? ==> r.value == Template(PartsAfter(Kinds(lines)), ExpressionTable(Kinds(lines)))
  {
    var parts := InitialParts;
    var current: Option<string> := None;
    var expressions: seq<(string, string)> := [];
    ghost var seen: seq<LineKind> := [];
    for i := 0 to |lines|
      invariant seen == Kinds(lines[..i])
      invariant StateAfter(seen, parts, current, expressions)
      invariant AllHaveValues(seen)
    {
      var kind := Classify(lines[i]);
      var ok;
      ok, parts, current, expressions := ParseLine(kind, parts, current, expressions, seen);
      if !ok {
        MapSeqAt(Classify, lines, i);
        MapSeqPrefix(Classify, lines, i);
        FirstLacking(Kinds(lines), i);
        return Err(ExpressionWithoutValue(i));
      }
      MapSeqSnoc(Classify, lines, i);
      NoLackStep(seen, kind);
      seen := seen + [kind];
    }
    assert lines[..|lines|] == lines;
    r := Ok(Template(parts, expressions));
  }
}
