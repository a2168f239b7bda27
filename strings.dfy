/**
 * The pieces of Python's `str` API that the mailer uses, over `string` (a
 * sequence of Unicode characters): `strip`, `startswith`, `split` with an
 * explicit one-character separator, `join`, and `replace` of one character.
 */
module Strings {

  /** `str.isspace` of a single character: exactly the characters `str.strip()` removes. */
  predicate IsSpace(c: char)
  {
    ('\t' <= c <= '\r') || ('\U{1C}' <= c <= '\U{1F}') || c == ' ' || c == '\U{85}' || c == '\U{A0}'
    || c == '\U{1680}' || ('\U{2000}' <= c <= '\U{200A}') || c == '\U{2028}' || c == '\U{2029}'
    || c == '\U{202F}' || c == '\U{205F}' || c == '\U{3000}'
  }

  predicate AllSpace(s: string)
  {
    forall k :: 0 <= k < |s| ==> IsSpace(s[k])
  }

  /** `s.lstrip()`: the suffix of `s` left once its leading whitespace is gone. */
  function TrimStart(s: string): (r: string)
    ensures |r| <= |s| && r == s[|s| - |r|..]
    ensures AllSpace(s[..|s| - |r|])
    ensures r == [] || !IsSpace(r[0])
  {
    if s != [] && IsSpace(s[0]) then
      var r := TrimStart(s[1..]);
      assert AllSpace(s[..|s| - |r|]) by {
        var lead := s[..|s| - |r|];
        forall k | 0 <= k < |lead|
          ensures IsSpace(lead[k])
        {
          if k > 0 {
            assert lead[k] == s[1..][..|s| - 1 - |r|][k - 1];
          }
        }
      }
      r
    else
      s
  }

  /** `s.rstrip()`: the prefix of `s` left once its trailing whitespace is gone. */
  function TrimEnd(s: string): (r: string)
    ensures |r| <= |s| && r == s[..|r|]
    ensures AllSpace(s[|r|..])
    ensures r == [] || !IsSpace(r[|r| - 1])
  {
    if s != [] && IsSpace(s[|s| - 1]) then
      var r := TrimEnd(s[..|s| - 1]);
      assert AllSpace(s[|r|..]) by {
        var trail := s[|r|..];
        forall k | 0 <= k < |trail|
          ensures IsSpace(trail[k])
        {
          if k < |trail| - 1 {
            assert trail[k] == s[..|s| - 1][|r|..][k];
          }
        }
      }
      r
    else
      s
  }

  /**
   * `s.strip()`: no longer than `s`, and neither starting nor ending with
   * whitespace (`TrimFindsCore` says which part of `s` it is).
   */
  function Trim(s: string): (r: string)
    ensures |r| <= |s|
    ensures r == [] || (!IsSpace(r[0]) && !IsSpace(r[|r| - 1]))
  {
    TrimEnd(TrimStart(s))
  }

  /** `lstrip` skips exactly a whitespace prefix that is followed by non-whitespace. */
  lemma {:induction false} TrimStartSkips(lead: string, rest: string)
    requires AllSpace(lead)
    requires rest == [] || !IsSpace(rest[0])
    ensures TrimStart(lead + rest) == rest
  {
    if lead != [] {
      assert (lead + rest)[1..] == lead[1..] + rest;
      TrimStartSkips(lead[1..], rest);
    }
  }

  /** `rstrip` drops exactly a whitespace suffix that follows non-whitespace. */
  lemma {:induction false} TrimEndSkips(rest: string, trail: string)
    requires AllSpace(trail)
    requires rest == [] || !IsSpace(rest[|rest| - 1])
    ensures TrimEnd(rest + trail) == rest
  {
    if trail != [] {
      var shorter := trail[..|trail| - 1];
      assert (rest + trail)[..|rest + trail| - 1] == rest + shorter;
      TrimEndSkips(rest, shorter);
    }
  }

  /**
   * `strip` is pinned down by its effect: whenever `s` is whitespace, then a
   * middle part that neither starts nor ends with whitespace, then whitespace,
   * `strip` returns that middle part.
   */
  lemma TrimFindsCore(lead: string, core: string, trail: string)
    requires AllSpace(lead) && AllSpace(trail)
    requires core == [] || (!IsSpace(core[0]) && !IsSpace(core[|core| - 1]))
    ensures Trim(lead + core + trail) == core
  {
    if core == [] {
      assert lead + core + trail == (lead + trail) + [];
      TrimStartSkips(lead + trail, []);
    } else {
      assert lead + core + trail == lead + (core + trail);
      TrimStartSkips(lead, core + trail);
      TrimEndSkips(core, trail);
    }
  }

  /** `s.startswith(p)`: `s` agrees with `p` at every position of `p`. */
  predicate StartsWith(s: string, p: string)
    ensures StartsWith(s, p) <==> |p| <= |s| && forall i :: 0 <= i < |p| ==> s[i] == p[i]
  {
    |p| <= |s| && s[..|p|] == p
  }

  /** A string does not start with a prefix it differs from at position `i`. */
  lemma DiffersAt(s: string, p: string, i: nat)
    requires i < |s| && i < |p| && s[i] != p[i]
    ensures !StartsWith(s, p)
  {
    if |p| <= |s| {
      assert s[..|p|][i] == s[i];
    }
  }

  /** `sep.join(parts)`. */
  function Join(parts: seq<string>, sep: string): string
  {
    if parts == [] then ""
    else if |parts| == 1 then parts[0]
    else parts[0] + (sep + Join(parts[1..], sep))
  }

  /** `"".join(parts)`: the parts one after another. */
  function Concat(parts: seq<string>): string
  {
    if parts == [] then "" else Concat(parts[..|parts| - 1]) + parts[|parts| - 1]
  }

  /**
   * `s.split(sep)` for a one-character separator: the maximal separator-free
   * pieces between separators, so joining them back with `sep` gives `s`.
   */
  function Split(s: string, sep: char): (parts: seq<string>)
    ensures |parts| >= 1
    ensures forall k :: 0 <= k < |parts| ==> sep !in parts[k]
    ensures Join(parts, [sep]) == s
  {
    if s == [] then [""]
    else
      var rest := Split(s[1..], sep);
      if s[0] == sep then
        assert ([""] + rest)[1..] == rest;
        [""] + rest
      else
        var parts := [[s[0]] + rest[0]] + rest[1..];
        assert parts[1..] == rest[1..];
        assert |rest| > 1 ==>
          ([s[0]] + rest[0]) + ([sep] + Join(rest[1..], [sep])) == [s[0]] + (rest[0] + ([sep] + Join(rest[1..], [sep])));
        parts
  }

  /** `s.split(sep)` has a second piece exactly when `sep` occurs in `s`. */
  lemma {:induction false} SplitFindsSeparator(s: string, sep: char)
    ensures |Split(s, sep)| >= 2 <==> sep in s
  {
    if s != [] {
      SplitFindsSeparator(s[1..], sep);
      assert sep in s <==> s[0] == sep || sep in s[1..];
    }
  }

  /** A piece free of the separator, then the separator, splits off as the first part. */
  lemma {:induction false} SplitAtFirst(a: string, sep: char, b: string)
    requires sep !in a
    ensures Split(a + [sep] + b, sep) == [a] + Split(b, sep)
  {
    var s := a + [sep] + b;
    if a == [] {
      assert s[1..] == b;
    } else {
      assert s[1..] == a[1..] + [sep] + b;
      SplitAtFirst(a[1..], sep, b);
      assert [a[0]] + a[1..] == a;
    }
  }

  /** Text without the separator splits into itself alone. */
  lemma {:induction false} SplitWithoutSeparator(a: string, sep: char)
    requires sep !in a
    ensures Split(a, sep) == [a]
  {
    if a != [] {
      SplitWithoutSeparator(a[1..], sep);
      assert [a[0]] + a[1..] == a;
    }
  }

  /** `s.replace(c, t)` for a one-character `c`: every occurrence of `c` becomes `t`. */
  function ReplaceChar(s: string, c: char, t: string): (r: string)
    ensures c !in t ==> c !in r
    ensures c !in s ==> r == s
  {
    if s == [] then []
    else (if s[0] == c then t else [s[0]]) + ReplaceChar(s[1..], c, t)
  }

  /** Joining after an empty first part starts with the separator. */
  lemma JoinAfterEmpty(rest: seq<string>, sep: string)
    requires |rest| >= 1
    ensures Join([""] + rest, sep) == sep + Join(rest, sep)
  {
    assert ([""] + rest)[1..] == rest;
  }

  /** Gluing a character to the front of the first part puts it in front of the joined text. */
  lemma JoinGlued(x: char, rest: seq<string>, sep: string)
    requires |rest| >= 1
    ensures Join([[x] + rest[0]] + rest[1..], sep) == [x] + Join(rest, sep)
  {
    var parts := [[x] + rest[0]] + rest[1..];
    if |rest| > 1 {
      assert parts[1..] == rest[1..];
      var tail := sep + Join(rest[1..], sep);
      assert ([x] + rest[0]) + tail == [x] + (rest[0] + tail);
    }
  }

  /**
   * Python's identity `s.replace(c, t) == t.join(s.split(c))`: replacing a
   * character is splitting at it and joining the pieces with the replacement.
   */
  lemma {:induction false} ReplaceIsJoinOfSplit(s: string, c: char, t: string)
    ensures ReplaceChar(s, c, t) == Join(Split(s, c), t)
  {
    if s != [] {
      ReplaceIsJoinOfSplit(s[1..], c, t);
      var rest := Split(s[1..], c);
      if s[0] == c {
        assert Split(s, c) == [""] + rest;
        JoinAfterEmpty(rest, t);
      } else {
        assert Split(s, c) == [[s[0]] + rest[0]] + rest[1..];
        JoinGlued(s[0], rest, t);
      }
    }
  }

  /**
   * `s.replace(pat, repl)` for a non-empty `pat`: occurrences of `pat` are
   * found left to right without overlapping, and each becomes `repl`.
   */
  function ReplaceAll(s: string, pat: string, repl: string): string
    requires pat != []
    decreases |s|
  {
    if s == [] then []
    else if StartsWith(s, pat) then repl + ReplaceAll(s[|pat|..], pat, repl)
    else [s[0]] + ReplaceAll(s[1..], pat, repl)
  }

  /**
   * Replacing the character `c` by `pat` is undone by replacing `pat` by `c`,
   * provided no other character of `s` can start a `pat`.
   */
  lemma {:induction false} ReplaceAllUndoesReplaceChar(s: string, c: char, pat: string)
    requires pat != []
    requires forall k :: 0 <= k < |s| && s[k] != c ==> s[k] != pat[0]
    ensures ReplaceAll(ReplaceChar(s, c, pat), pat, [c]) == s
  {
    if s != [] {
      var r := ReplaceChar(s[1..], c, pat);
      ReplaceAllUndoesReplaceChar(s[1..], c, pat);
      if s[0] == c {
        assert ReplaceChar(s, c, pat) == pat + r;
        assert (pat + r)[..|pat|] == pat && (pat + r)[|pat|..] == r;
      } else {
        assert ReplaceChar(s, c, pat) == [s[0]] + r;
        assert !StartsWith([s[0]] + r, pat);
        assert ([s[0]] + r)[1..] == r;
      }
    }
  }
}
