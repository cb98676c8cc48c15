/** Prompt validation: the checks a prompt must pass, and the scanner that
    finds the variables a template uses. The scanner follows the regular
    expression `\{\{\s*(ident(\.ident)*)\s*\}\}` searched left to right, each
    search resuming where the previous match ended, and keeps the part of
    each match before the first dot. */
module Validator {
  import opened Wrappers
  import opened Strings
  import opened Values
  import opened Prompts
  import opened Errors
  import Assoc

  // ---------------------------------------------------------------------
  // The template scanner

  predicate IsIdentifier(s: string) {
    |s| > 0 && IsIdentStart(s[0]) && forall i :: 0 <= i < |s| ==> IsIdentChar(s[i])
  }

  /** No `{` in positions `lo` to `hi - 1`. */
  predicate NoOpenBrace(t: string, lo: nat, hi: nat)
    requires lo <= hi <= |t|
  {
    forall q :: lo <= q < hi ==> t[q] != '{'
  }

  lemma NoOpenBraceJoin(t: string, a: nat, b: nat, c: nat)
    requires a <= b <= c <= |t|
    requires NoOpenBrace(t, a, b) && NoOpenBrace(t, b, c)
    ensures NoOpenBrace(t, a, c)
  {
  }

  /** `\s*` from position `j`. */
  function SkipSpace(t: string, j: nat): (k: nat)
    requires j <= |t|
    ensures j <= k <= |t|
    ensures forall q :: j <= q < k ==> IsSpace(t[q])
    ensures k < |t| ==> !IsSpace(t[k])
    ensures NoOpenBrace(t, j, k)
    decreases |t| - j
  {
    if j < |t| && IsSpace(t[j]) then SkipSpace(t, j + 1) else j
  }

  /** `[a-zA-Z0-9_]*` from position `j`. */
  function SkipIdentChars(t: string, j: nat): (k: nat)
    requires j <= |t|
    ensures j <= k <= |t|
    ensures forall q :: j <= q < k ==> IsIdentChar(t[q])
    ensures k < |t| ==> !IsIdentChar(t[k])
    ensures NoOpenBrace(t, j, k)
    decreases |t| - j
  {
    if j < |t| && IsIdentChar(t[j]) then SkipIdentChars(t, j + 1) else j
  }

  /** `(\.[a-zA-Z_][a-zA-Z0-9_]*)*` from position `j`. */
  function SkipAttributes(t: string, j: nat): (k: nat)
    requires j <= |t|
    ensures j <= k <= |t|
    ensures NoOpenBrace(t, j, k)
    decreases |t| - j
  {
    if j + 1 < |t| && t[j] == '.' && IsIdentStart(t[j + 1]) then
      var k := SkipAttributes(t, SkipIdentChars(t, j + 2));
      NoOpenBraceJoin(t, j + 2, SkipIdentChars(t, j + 2), k);
      k
    else j
  }

  /** A match: the base variable name and the position just after `}}`. */
  datatype Match = Match(base: string, end: nat)

  lemma IdentifierSlice(t: string, a: nat, b: nat)
    requires a < b <= |t| && IsIdentStart(t[a])
    requires forall q :: a + 1 <= q < b ==> IsIdentChar(t[q])
    ensures IsIdentifier(t[a..b])
  {
    assert forall q :: 0 <= q < b - a ==> t[a..b][q] == t[a + q];
  }

  /** The rest of a match once its name starts at `a`: the name, attributes,
      optional space and the closing braces. */
  function MatchFromName(t: string, a: nat): (m: Option<Match>)
    requires a < |t| && IsIdentStart(t[a])
    ensures m.Some? ==> a + 3 <= m.value.end <= |t| && IsIdentifier(m.value.base)
    ensures m.Some? ==> NoOpenBrace(t, a, m.value.end)
  {
    var b := SkipIdentChars(t, a + 1);
    var c := SkipAttributes(t, b);
    var d := SkipSpace(t, c);
    if d + 1 < |t| && t[d] == '}' && t[d + 1] == '}' then
      IdentifierSlice(t, a, b);
      NoOpenBraceJoin(t, a, a + 1, b);
      NoOpenBraceJoin(t, a, b, c);
      NoOpenBraceJoin(t, a, c, d);
      NoOpenBraceJoin(t, a, d, d + 2);
      Some(Match(t[a..b], d + 2))
    else None
  }

  /** The match of the pattern starting exactly at position `i`, if any. The
      pattern's pieces use disjoint character classes, so there is at most
      one way to match. */
  function MatchAt(t: string, i: nat): (m: Option<Match>)
    requires i <= |t|
    ensures m.Some? ==> i + 5 <= m.value.end <= |t| && IsIdentifier(m.value.base)
    ensures m.Some? ==> t[i] == '{' && t[i + 1] == '{'
    ensures m.Some? ==> NoOpenBrace(t, i + 2, m.value.end)
  {
    if i + 1 < |t| && t[i] == '{' && t[i + 1] == '{' then
      var a := SkipSpace(t, i + 2);
      if a < |t| && IsIdentStart(t[a]) then
        var m := MatchFromName(t, a);
        if m.Some? then
          NoOpenBraceJoin(t, i + 2, a, m.value.end);
          m
        else None
      else None
    else None
  }

  /** The base names of the matches found from position `i` on, in order. */
  function Scan(t: string, i: nat): seq<string>
    requires i <= |t|
    decreases |t| - i
  {
    if i == |t| then []
    else
      match MatchAt(t, i)
      case Some(m) => [m.base] + Scan(t, m.end)
      case None => Scan(t, i + 1)
  }

  /** A name the pattern matches at some position from `i` on. */
  predicate MatchedFrom(t: string, i: nat, x: string) {
    exists j :: i <= j < |t| && MatchAt(t, j).Some? && MatchAt(t, j).value.base == x
  }

  lemma MatchedFromNoMatch(t: string, i: nat)
    requires i < |t| && MatchAt(t, i).None?
    ensures forall x :: MatchedFrom(t, i, x) <==> MatchedFrom(t, i + 1, x)
  {
    forall x | MatchedFrom(t, i, x) ensures MatchedFrom(t, i + 1, x) {
      var j :| i <= j < |t| && MatchAt(t, j).Some? && MatchAt(t, j).value.base == x;
      assert j != i;
    }
  }

  /** No other match starts inside a match: its text after `{{` holds no `{`. */
  lemma NoMatchInside(t: string, i: nat, j: nat)
    requires i < j < |t| && MatchAt(t, i).Some? && MatchAt(t, j).Some?
    ensures j >= MatchAt(t, i).value.end
  {
    var e := MatchAt(t, i).value.end;
    if i + 1 < j < e {
      assert t[j] == '{';
    }
  }

  lemma MatchedFromMatch(t: string, i: nat)
    requires i < |t| && MatchAt(t, i).Some?
    ensures forall x :: MatchedFrom(t, i, x) <==>
      x == MatchAt(t, i).value.base || MatchedFrom(t, MatchAt(t, i).value.end, x)
  {
    forall x ensures MatchedFrom(t, i, x) <==>
      x == MatchAt(t, i).value.base || MatchedFrom(t, MatchAt(t, i).value.end, x)
    {
      MatchedSplit(t, i, x);
    }
  }

  /** One name: found from `i` exactly when it is the match at `i` or is
      found after that match's end. */
  lemma MatchedSplit(t: string, i: nat, x: string)
    requires i < |t| && MatchAt(t, i).Some?
    ensures MatchedFrom(t, i, x) <==>
      x == MatchAt(t, i).value.base || MatchedFrom(t, MatchAt(t, i).value.end, x)
  {
    var m := MatchAt(t, i).value;
    if x == m.base {
      assert MatchAt(t, i).Some? && MatchAt(t, i).value.base == x;
    } else if MatchedFrom(t, i, x) {
      var j :| i <= j < |t| && MatchAt(t, j).Some? && MatchAt(t, j).value.base == x;
      MatchedAfter(t, i, j, x);
    }
    if MatchedFrom(t, m.end, x) {
      MatchedFromEarlier(t, i, m.end, x);
    }
  }

  /** A later match than the one at `i` lies at or after its end. */
  lemma MatchedAfter(t: string, i: nat, j: nat, x: string)
    requires i < |t| && MatchAt(t, i).Some?
    requires i < j < |t| && MatchAt(t, j).Some? && MatchAt(t, j).value.base == x
    ensures MatchedFrom(t, MatchAt(t, i).value.end, x)
  {
    NoMatchInside(t, i, j);
  }

  /** A match found from `k` on is found from any earlier position. */
  lemma MatchedFromEarlier(t: string, i: nat, k: nat, x: string)
    requires i <= k && MatchedFrom(t, k, x)
    ensures MatchedFrom(t, i, x)
  {
  }

  /** Resuming each search at the end of the previous match still reports
      every name the pattern matches anywhere in the text. */
  lemma {:induction false} ScanFindsEveryMatch(t: string, i: nat)
    requires i <= |t|
    ensures forall x :: x in Scan(t, i) <==> MatchedFrom(t, i, x)
    decreases |t| - i
  {
    if i < |t| {
      match MatchAt(t, i)
      case Some(m) =>
        ScanFindsEveryMatch(t, m.end);
        MatchedFromMatch(t, i);
      case None =>
        ScanFindsEveryMatch(t, i + 1);
        MatchedFromNoMatch(t, i);
    }
  }

  /** The set of variable names a template uses. */
  function TemplateVariables(t: string): set<string> {
    set x | x in Scan(t, 0)
  }

  /** The variables of a template are exactly the base names the pattern
      matches at any position, and each is an identifier. */
  lemma TemplateVariablesAreMatches(t: string)
    ensures forall x :: x in TemplateVariables(t) <==> MatchedFrom(t, 0, x)
    ensures forall x :: x in TemplateVariables(t) ==> IsIdentifier(x)
  {
    ScanFindsEveryMatch(t, 0);
  }

  /** An identifier at position `a`, followed by a non-identifier character,
      is skipped in full. */
  lemma SkipsName(t: string, a: nat, x: string)
    requires IsIdentifier(x) && a + |x| < |t|
    requires t[a..a + |x|] == x && !IsIdentChar(t[a + |x|])
    ensures SkipIdentChars(t, a + 1) == a + |x|
  {
    assert forall q :: a <= q < a + |x| ==> t[q] == x[q - a];
  }

  /** `{{ x }}` anywhere in a template reports `x`, whatever surrounds it;
      a loop variable or a `set` target used this way is reported too. */
  lemma ReportsPlainUse(pre: string, x: string, post: string)
    requires IsIdentifier(x)
    ensures x in TemplateVariables(pre + "{{ " + x + " }}" + post)
  {
    var t := pre + "{{ " + x + " }}" + post;
    var i := |pre|;
    var e := i + 3 + |x|;
    assert t[i] == '{' && t[i + 1] == '{' && t[i + 2] == ' ';
    assert t[i + 3..e] == x;
    assert t[e] == ' ' && t[e + 1] == '}' && t[e + 2] == '}';
    PlainMatch(t, i, x);
    TemplateVariablesAreMatches(t);
  }

  /** `{{ x }}` at position `i` is a match with base `x`. */
  lemma PlainMatch(t: string, i: nat, x: string)
    requires IsIdentifier(x) && i + |x| + 6 <= |t|
    requires t[i] == '{' && t[i + 1] == '{' && t[i + 2] == ' '
    requires t[i + 3..i + 3 + |x|] == x
    requires t[i + 3 + |x|] == ' ' && t[i + 4 + |x|] == '}' && t[i + 5 + |x|] == '}'
    ensures MatchAt(t, i) == Some(Match(x, i + 6 + |x|))
  {
    var e := i + 3 + |x|;
    OpenThenName(t, i, x);
    assert SkipAttributes(t, e) == e;
    assert SkipSpace(t, e) == e + 1;
    MatchFromNameIs(t, i + 3, e, e, e + 1);
  }

  lemma MatchFromNameIs(t: string, a: nat, b: nat, c: nat, d: nat)
    requires a < |t| && IsIdentStart(t[a])
    requires SkipIdentChars(t, a + 1) == b && SkipAttributes(t, b) == c && SkipSpace(t, c) == d
    requires d + 1 < |t| && t[d] == '}' && t[d + 1] == '}'
    ensures MatchFromName(t, a) == Some(Match(t[a..b], d + 2))
  {
  }

  /** `{{ x` at position `i` of `t`, followed by a non-identifier character. */
  lemma OpenThenName(t: string, i: nat, x: string)
    requires IsIdentifier(x) && i + 3 + |x| < |t|
    requires t[i + 2] == ' ' && t[i + 3..i + 3 + |x|] == x && !IsIdentChar(t[i + 3 + |x|])
    ensures SkipSpace(t, i + 2) == i + 3
    ensures SkipIdentChars(t, i + 4) == i + 3 + |x|
  {
    assert t[i + 3] == x[0];
    assert !IsSpace(t[i + 3]);
    SkipsName(t, i + 3, x);
  }

  /** `.y }}` at position `e` of `t`: one attribute, then the closing. */
  lemma AttributeTail(t: string, e: nat, y: string)
    requires IsIdentifier(y) && e + |y| + 4 <= |t|
    requires t[e] == '.' && t[e + 1..e + 1 + |y|] == y
    requires t[e + 1 + |y|] == ' ' && t[e + 2 + |y|] == '}' && t[e + 3 + |y|] == '}'
    ensures SkipAttributes(t, e) == e + 1 + |y|
    ensures SkipSpace(t, e + 1 + |y|) == e + 2 + |y|
  {
    var f := e + 1 + |y|;
    assert SkipIdentChars(t, e + 2) == f by {
      SkipsName(t, e + 1, y);
    }
    assert t[e + 1] == y[0];
    assert SkipAttributes(t, f) == f;
  }

  /** The match of `{{ x.y }}` written at position `i` of `t`. */
  lemma AttributeMatch(t: string, i: nat, x: string, y: string)
    requires IsIdentifier(x) && IsIdentifier(y)
    requires i + |x| + |y| + 7 <= |t|
    requires t[i] == '{' && t[i + 1] == '{' && t[i + 2] == ' '
    requires t[i + 3..i + 3 + |x|] == x && t[i + 3 + |x|] == '.'
    requires t[i + 4 + |x|..i + 4 + |x| + |y|] == y
    requires t[i + 4 + |x| + |y|] == ' ' && t[i + 5 + |x| + |y|] == '}' && t[i + 6 + |x| + |y|] == '}'
    ensures MatchAt(t, i) == Some(Match(x, i + 7 + |x| + |y|))
  {
    NameThenAttribute(t, i, x, y);
    OpenedAt(t, i, i + 3);
  }

  /** The name part of `{{ x.y }}` at position `i`: the match from `x`. */
  lemma NameThenAttribute(t: string, i: nat, x: string, y: string)
    requires IsIdentifier(x) && IsIdentifier(y)
    requires i + |x| + |y| + 7 <= |t|
    requires t[i + 2] == ' '
    requires t[i + 3..i + 3 + |x|] == x && t[i + 3 + |x|] == '.'
    requires t[i + 4 + |x|..i + 4 + |x| + |y|] == y
    requires t[i + 4 + |x| + |y|] == ' ' && t[i + 5 + |x| + |y|] == '}' && t[i + 6 + |x| + |y|] == '}'
    ensures SkipSpace(t, i + 2) == i + 3 && IsIdentStart(t[i + 3])
    ensures MatchFromName(t, i + 3) == Some(Match(x, i + 7 + |x| + |y|))
  {
    var a := i + 3;
    var e := a + |x|;
    var f := e + 1 + |y|;
    assert t[a] == x[0] && t[e] == '.';
    OpenThenName(t, i, x);
    AttributeTail(t, e, y);
    MatchFromNameIs(t, a, e, f, f + 1);
  }

  /** Past `{{` and its spaces, a match at `i` is the match from the name. */
  lemma OpenedAt(t: string, i: nat, a: nat)
    requires i + 1 < |t| && t[i] == '{' && t[i + 1] == '{'
    requires SkipSpace(t, i + 2) == a && a < |t| && IsIdentStart(t[a])
    ensures MatchAt(t, i) == MatchFromName(t, a)
  {
  }

  /** `{{ x.attr }}` reports `x`. */
  lemma ReportsAttributeBase(pre: string, x: string, y: string, post: string)
    requires IsIdentifier(x) && IsIdentifier(y)
    ensures x in TemplateVariables(pre + "{{ " + x + "." + y + " }}" + post)
  {
    var t := pre + "{{ " + x + "." + y + " }}" + post;
    var i := |pre|;
    assert t[i + 3..i + 3 + |x|] == x;
    assert t[i + 4 + |x|..i + 4 + |x| + |y|] == y;
    AttributeMatch(t, i, x, y);
    assert MatchAt(t, i).Some? && MatchAt(t, i).value.base == x;
    TemplateVariablesAreMatches(t);
  }

  // ---------------------------------------------------------------------
  // Validation

  /** The type names a variable may declare. */
  const ValidTypes: set<string> := {"string", "int", "float", "bool", "list", "dict", "any"}

  /** The order the type names are listed in the message. */
  const ValidTypesListing: seq<string> := ["string", "int", "float", "bool", "list", "dict", "any"]

  /** One validation problem. */
  datatype Issue =
    | MissingName
    | SyntaxError(detail: string)
    | UndefinedVariables(names: seq<string>)
    | RequiredWithDefault(name: string)
    | InvalidType(name: string, varType: string)
  {
    /** Issues are reported in this order; per-variable issues follow the
        declaration order of the variables. */
    function Rank(): nat {
      match this
      case MissingName => 0
      case SyntaxError(_) => 1
      case UndefinedVariables(_) => 2
      case _ => 3
    }

    function Message(): string {
      match this
      case MissingName => "Prompt metadata must have a 'name' field"
      case SyntaxError(d) => "Template syntax error: " + d
      case UndefinedVariables(ns) => "Template uses undefined variables: " + Join(", ", ns)
      case RequiredWithDefault(x) => "Variable '" + x + "' is required but has a default value"
      case InvalidType(x, ty) =>
        "Variable '" + x + "' has invalid type '" + ty + "'. Valid types: " + Join(", ", ValidTypesListing)
    }
  }

  function NotDefined(xs: seq<string>, vars: Assoc.Table<VariableDefinition>): (r: seq<string>)
    ensures forall x :: x in r <==> x in xs && !Assoc.HasKey(vars, x)
  {
    if |xs| == 0 then []
    else (if Assoc.HasKey(vars, xs[0]) then [] else [xs[0]]) + NotDefined(xs[1..], vars)
  }

  /** The names the template uses that have no definition, sorted. */
  function UndefinedNames(p: Prompt): (r: seq<string>)
    ensures StrictlySorted(r)
    ensures forall x :: x in r <==> x in TemplateVariables(p.template) && !Assoc.HasKey(p.variables, x)
  {
    SortedUnique(NotDefined(Scan(p.template, 0), p.variables))
  }

  /** The problems of one definition. */
  function DefinitionIssues(name: string, v: VariableDefinition): (r: seq<Issue>)
    ensures RequiredWithDefault(name) in r <==> v.required && v.default != Null
    ensures InvalidType(name, v.varType) in r <==> v.varType !in ValidTypes
    ensures forall iss :: iss in r ==> iss == RequiredWithDefault(name) || iss == InvalidType(name, v.varType)
    ensures NoDuplicates(r)
    ensures |r| == 2 ==> r[0] == RequiredWithDefault(name)
  {
    (if v.required && v.default != Null then [RequiredWithDefault(name)] else [])
      + (if v.varType !in ValidTypes then [InvalidType(name, v.varType)] else [])
  }

  /** The problems of each definition, in declaration order. */
  function VariableIssues(vars: Assoc.Table<VariableDefinition>): (r: seq<Issue>)
    ensures forall iss :: iss in r ==> iss.Rank() == 3
    ensures forall iss :: iss in r ==> (iss.RequiredWithDefault? || iss.InvalidType?) && iss.name in Assoc.Keys(vars)
    ensures Assoc.Distinct(vars) ==> NoDuplicates(r)
    ensures Assoc.Distinct(vars) ==> forall x ::
      RequiredWithDefault(x) in r <==>
        Assoc.HasKey(vars, x) && Assoc.Get(vars, x).value.required && Assoc.Get(vars, x).value.default != Null
    ensures Assoc.Distinct(vars) ==> forall x, ty ::
      InvalidType(x, ty) in r <==>
        Assoc.HasKey(vars, x) && Assoc.Get(vars, x).value.varType == ty && ty !in ValidTypes
  {
    if |vars| == 0 then []
    else
      var d, rest := DefinitionIssues(vars[0].0, vars[0].1), VariableIssues(vars[1..]);
      IssuesJoin(vars, d, rest);
      RequiredIssuesJoin(vars, d, rest);
      TypeIssuesJoin(vars, d, rest);
      d + rest
  }

  /** The required-with-default issues of a table are those of its first
      declaration and those of the rest. */
  lemma RequiredIssuesJoin(vars: Assoc.Table<VariableDefinition>, d: seq<Issue>, rest: seq<Issue>)
    requires |vars| > 0
    requires RequiredWithDefault(vars[0].0) in d <==> vars[0].1.required && vars[0].1.default != Null
    requires forall iss :: iss in d ==> (iss.RequiredWithDefault? || iss.InvalidType?) && iss.name == vars[0].0
    requires Assoc.Distinct(vars[1..]) ==> forall x ::
      RequiredWithDefault(x) in rest <==>
        Assoc.HasKey(vars[1..], x) && Assoc.Get(vars[1..], x).value.required && Assoc.Get(vars[1..], x).value.default != Null
    ensures Assoc.Distinct(vars) ==> forall x ::
      RequiredWithDefault(x) in d + rest <==>
        Assoc.HasKey(vars, x) && Assoc.Get(vars, x).value.required && Assoc.Get(vars, x).value.default != Null
  {
    if Assoc.Distinct(vars) {
      forall x ensures RequiredWithDefault(x) in d + rest <==>
        Assoc.HasKey(vars, x) && Assoc.Get(vars, x).value.required && Assoc.Get(vars, x).value.default != Null
      {
        if x == vars[0].0 {
          assert RequiredWithDefault(x) !in rest;
        } else {
          assert RequiredWithDefault(x) !in d;
          assert Assoc.Get(vars, x) == Assoc.Get(vars[1..], x);
        }
      }
    }
  }

  /** The invalid-type issues of a table are those of its first declaration
      and those of the rest. */
  lemma TypeIssuesJoin(vars: Assoc.Table<VariableDefinition>, d: seq<Issue>, rest: seq<Issue>)
    requires |vars| > 0
    requires InvalidType(vars[0].0, vars[0].1.varType) in d <==> vars[0].1.varType !in ValidTypes
    requires forall iss :: iss in d ==> iss == RequiredWithDefault(vars[0].0) || iss == InvalidType(vars[0].0, vars[0].1.varType)
    requires Assoc.Distinct(vars[1..]) ==> forall x, ty ::
      InvalidType(x, ty) in rest <==>
        Assoc.HasKey(vars[1..], x) && Assoc.Get(vars[1..], x).value.varType == ty && ty !in ValidTypes
    ensures Assoc.Distinct(vars) ==> forall x, ty ::
      InvalidType(x, ty) in d + rest <==>
        Assoc.HasKey(vars, x) && Assoc.Get(vars, x).value.varType == ty && ty !in ValidTypes
  {
    if Assoc.Distinct(vars) {
      forall x, ty ensures InvalidType(x, ty) in d + rest <==>
        Assoc.HasKey(vars, x) && Assoc.Get(vars, x).value.varType == ty && ty !in ValidTypes
      {
        if x == vars[0].0 {
          assert InvalidType(x, ty) !in rest;
        } else {
          assert InvalidType(x, ty) !in d;
          assert Assoc.Get(vars, x) == Assoc.Get(vars[1..], x);
        }
      }
    }
  }

  /** The issues of the first declaration and those of the rest share no
      name when the names are distinct. */
  lemma IssuesJoin(vars: Assoc.Table<VariableDefinition>, d: seq<Issue>, rest: seq<Issue>)
    requires |vars| > 0 && NoDuplicates(d)
    requires forall iss :: iss in d ==> (iss.RequiredWithDefault? || iss.InvalidType?) && iss.name == vars[0].0
    requires forall iss :: iss in rest ==> (iss.RequiredWithDefault? || iss.InvalidType?) && iss.name in Assoc.Keys(vars[1..])
    requires Assoc.Distinct(vars[1..]) ==> NoDuplicates(rest)
    ensures Assoc.Distinct(vars) ==> NoDuplicates(d + rest)
  {
    if Assoc.Distinct(vars) {
      KeysHaveKey(vars[1..]);
      NoDuplicatesAppend(d, rest);
    }
  }

  /** Every listed key is a key of the table. */
  lemma KeysHaveKey<V>(t: Assoc.Table<V>)
    ensures forall k :: k in Assoc.Keys(t) ==> Assoc.HasKey(t, k)
  {
    forall k | k in Assoc.Keys(t) ensures Assoc.HasKey(t, k) {
      var i :| 0 <= i < |t| && Assoc.Keys(t)[i] == k;
      Assoc.HasKeyAt(t, i);
    }
  }

  /** Two duplicate-free lists with nothing in common join without
      duplicates. */
  lemma NoDuplicatesAppend<T>(a: seq<T>, b: seq<T>)
    requires NoDuplicates(a) && NoDuplicates(b)
    requires forall x :: x in a ==> x !in b
    ensures NoDuplicates(a + b)
  {
    forall i, j | 0 <= i < j < |a + b| ensures (a + b)[i] != (a + b)[j] {
      if i < |a| && j >= |a| {
        assert (a + b)[i] in a && (a + b)[j] == b[j - |a|];
      }
    }
  }

  /** The issues of consecutive declarations come one after the other: the
      per-variable checks run in declaration order. */
  lemma {:induction false} VariableIssuesAppend(a: Assoc.Table<VariableDefinition>, b: Assoc.Table<VariableDefinition>)
    ensures VariableIssues(a + b) == VariableIssues(a) + VariableIssues(b)
  {
    if |a| > 0 {
      assert (a + b)[1..] == a[1..] + b;
      VariableIssuesAppend(a[1..], b);
    } else {
      assert a + b == b;
    }
  }

  /** A single declaration yields exactly its own issues. */
  lemma VariableIssuesSingle(x: string, v: VariableDefinition)
    ensures VariableIssues([(x, v)]) == DefinitionIssues(x, v)
  {
    assert [(x, v)][1..] == [];
  }

  /** Every definition is acceptable on its own. */
  predicate DefinitionsOk(vars: Assoc.Table<VariableDefinition>) {
    forall i :: 0 <= i < |vars| ==>
      !(vars[i].1.required && vars[i].1.default != Null) && vars[i].1.varType in ValidTypes
  }

  lemma {:induction false} VariableIssuesEmpty(vars: Assoc.Table<VariableDefinition>)
    ensures VariableIssues(vars) == [] <==> DefinitionsOk(vars)
  {
    if |vars| > 0 {
      VariableIssuesEmpty(vars[1..]);
      assert DefinitionsOk(vars) <==>
        DefinitionIssues(vars[0].0, vars[0].1) == [] && DefinitionsOk(vars[1..]) by {
        if DefinitionsOk(vars[1..]) && DefinitionIssues(vars[0].0, vars[0].1) == [] {
          forall i | 0 <= i < |vars|
            ensures !(vars[i].1.required && vars[i].1.default != Null) && vars[i].1.varType in ValidTypes
          {
            if i > 0 {
              assert vars[i] == vars[1..][i - 1];
            }
          }
        }
        if DefinitionsOk(vars) {
          forall i | 0 <= i < |vars| - 1
            ensures !(vars[1..][i].1.required && vars[1..][i].1.default != Null)
            ensures vars[1..][i].1.varType in ValidTypes
          {
            assert vars[1..][i] == vars[i + 1];
          }
        }
      }
    }
  }

  /** Issues appear in non-decreasing rank. */
  predicate RankOrdered(r: seq<Issue>) {
    forall i, j :: 0 <= i < j < |r| ==> r[i].Rank() <= r[j].Rank()
  }

  lemma RankOrderedConcat(a: seq<Issue>, b: seq<Issue>)
    requires RankOrdered(a) && RankOrdered(b)
    requires forall x, y :: x in a && y in b ==> x.Rank() <= y.Rank()
    ensures RankOrdered(a + b)
  {
    forall i, j | 0 <= i < j < |a + b| ensures (a + b)[i].Rank() <= (a + b)[j].Rank() {
      if j < |a| {
        assert (a + b)[i] == a[i] && (a + b)[j] == a[j];
      } else if i >= |a| {
        assert (a + b)[i] == b[i - |a|] && (a + b)[j] == b[j - |a|];
      } else {
        assert (a + b)[i] in a && (a + b)[j] in b;
      }
    }
  }

  /** The prompt-wide issues, in the order they are checked. */
  function HeaderIssues(p: Prompt, parseError: Option<string>): (r: seq<Issue>)
    ensures RankOrdered(r)
    ensures forall iss :: iss in r ==> iss.Rank() < 3
  {
    var undefined := UndefinedNames(p);
    HeaderRanked(NameIssue(p.metadata.name == ""), SyntaxIssue(parseError), UsesIssue(undefined));
    Header(p.metadata.name == "", parseError, undefined)
  }

  function NameIssue(missing: bool): seq<Issue> {
    if missing then [MissingName] else []
  }

  function SyntaxIssue(parseError: Option<string>): seq<Issue> {
    if parseError.Some? then [SyntaxError(parseError.value)] else []
  }

  function UsesIssue(undefined: seq<string>): seq<Issue> {
    if |undefined| > 0 then [UndefinedVariables(undefined)] else []
  }

  /** The prompt-wide issues from the outcome of each check. */
  function Header(nameMissing: bool, parseError: Option<string>, undefined: seq<string>): seq<Issue> {
    NameIssue(nameMissing) + SyntaxIssue(parseError) + UsesIssue(undefined)
  }

  /** At most one issue of each prompt-wide rank, in rank order. */
  lemma HeaderRanked(name: seq<Issue>, syntax: seq<Issue>, uses: seq<Issue>)
    requires |name| <= 1 && |syntax| <= 1 && |uses| <= 1
    requires forall i :: 0 <= i < |name| ==> name[i].Rank() == 0
    requires forall i :: 0 <= i < |syntax| ==> syntax[i].Rank() == 1
    requires forall i :: 0 <= i < |uses| ==> uses[i].Rank() == 2
    ensures RankOrdered(name + syntax + uses)
    ensures forall iss :: iss in name + syntax + uses ==> iss.Rank() < 3
  {
    var r := name + syntax + uses;
    forall i | 0 <= i < |r| ensures r[i].Rank() == if i < |name| then 0 else if i < |name| + |syntax| then 1 else 2 {
      if i < |name| {
        assert r[i] == name[i];
      } else if i < |name| + |syntax| {
        assert r[i] == syntax[i - |name|];
      } else {
        assert r[i] == uses[i - |name| - |syntax|];
      }
    }
  }

  /** The `validate` checks, as issues: name, template syntax (the parser's
      verdict `parseError`), undefined variables, then each definition. */
  function Issues(p: Prompt, parseError: Option<string>): (r: seq<Issue>)
    ensures RankOrdered(r)
  {
    var h := HeaderIssues(p, parseError);
    var v := VariableIssues(p.variables);
    assert RankOrdered(v) by {
      forall i, j | 0 <= i < j < |v| ensures v[i].Rank() <= v[j].Rank() {
        assert v[i] in v && v[j] in v;
      }
    }
    RankOrderedConcat(h, v);
    h + v
  }

  /** Each prompt-wide issue is reported exactly when its check fails. */
  lemma PromptIssues(p: Prompt, parseError: Option<string>)
    ensures MissingName in Issues(p, parseError) <==> p.metadata.name == ""
    ensures forall d :: SyntaxError(d) in Issues(p, parseError) <==> parseError == Some(d)
    ensures forall ns :: UndefinedVariables(ns) in Issues(p, parseError) <==>
      ns == UndefinedNames(p) && |ns| > 0
  {
    var h, v := HeaderIssues(p, parseError), VariableIssues(p.variables);
    assert Issues(p, parseError) == h + v;
    HeaderMembers(p, parseError);
    assert MissingName !in v && forall d :: SyntaxError(d) !in v;
    assert forall ns :: UndefinedVariables(ns) !in v;
  }

  /** Which prompt-wide issues the header holds. */
  lemma HeaderMembers(p: Prompt, parseError: Option<string>)
    ensures MissingName in HeaderIssues(p, parseError) <==> p.metadata.name == ""
    ensures forall d :: SyntaxError(d) in HeaderIssues(p, parseError) <==> parseError == Some(d)
    ensures forall ns :: UndefinedVariables(ns) in HeaderIssues(p, parseError) <==>
      ns == UndefinedNames(p) && |ns| > 0
  {
    HeaderHolds(p.metadata.name == "", parseError, UndefinedNames(p));
  }

  lemma HeaderHolds(nameMissing: bool, parseError: Option<string>, undefined: seq<string>)
    ensures MissingName in Header(nameMissing, parseError, undefined) <==> nameMissing
    ensures forall d :: SyntaxError(d) in Header(nameMissing, parseError, undefined) <==> parseError == Some(d)
    ensures forall ns :: UndefinedVariables(ns) in Header(nameMissing, parseError, undefined) <==>
      ns == undefined && |ns| > 0
  {
  }

  /** Each per-variable issue is reported exactly when that definition
      fails its check. */
  lemma DefinitionIssuesReported(p: Prompt, parseError: Option<string>)
    requires WellFormed(p)
    ensures forall x ::
      RequiredWithDefault(x) in Issues(p, parseError) <==>
        Assoc.HasKey(p.variables, x) && Assoc.Get(p.variables, x).value.required
        && Assoc.Get(p.variables, x).value.default != Null
    ensures forall x, ty ::
      InvalidType(x, ty) in Issues(p, parseError) <==>
        Assoc.HasKey(p.variables, x) && Assoc.Get(p.variables, x).value.varType == ty && ty !in ValidTypes
  {
    var h := HeaderIssues(p, parseError);
    assert forall x :: RequiredWithDefault(x) !in h;
    assert forall x, ty :: InvalidType(x, ty) !in h;
  }

  /** A prompt that passes every check. */
  predicate Valid(p: Prompt, parseError: Option<string>) {
    && p.metadata.name != ""
    && parseError.None?
    && TemplateVariables(p.template) <= Assoc.KeySet(p.variables)
    && DefinitionsOk(p.variables)
  }

  lemma UndefinedNamesEmpty(p: Prompt)
    ensures UndefinedNames(p) == [] <==> TemplateVariables(p.template) <= Assoc.KeySet(p.variables)
  {
    var undefined := UndefinedNames(p);
    if |undefined| > 0 {
      assert undefined[0] in undefined;
    }
    if !(TemplateVariables(p.template) <= Assoc.KeySet(p.variables)) {
      var x :| x in TemplateVariables(p.template) && x !in Assoc.KeySet(p.variables);
      assert x in undefined;
    }
  }

  /** No issue is found exactly when every check passes. */
  lemma NoIssuesIffValid(p: Prompt, parseError: Option<string>)
    ensures Issues(p, parseError) == [] <==> Valid(p, parseError)
  {
    UndefinedNamesEmpty(p);
    VariableIssuesEmpty(p.variables);
    var h := HeaderIssues(p, parseError);
    if h != [] {
      assert h[0] in h;
    }
  }

  /** `validate(prompt)`: one message per issue, in order. */
  function Validate(p: Prompt, parseError: Option<string>): (r: seq<string>)
    ensures |r| == |Issues(p, parseError)|
    ensures forall i :: 0 <= i < |r| ==> r[i] == Issues(p, parseError)[i].Message()
    ensures r == [] <==> Valid(p, parseError)
  {
    var issues := Issues(p, parseError);
    NoIssuesIffValid(p, parseError);
    seq(|issues|, i requires 0 <= i < |issues| => issues[i].Message())
  }

  /** `validate_and_raise(prompt)`. */
  function ValidateAndRaise(p: Prompt, parseError: Option<string>): (r: Result<(), Error>)
    ensures r.Success? <==> Valid(p, parseError)
    ensures r.Failure? ==> r.error.PromptValidation?
    ensures r.Failure? ==> StartsWith(r.error.msg, "Prompt validation failed:\n")
  {
    var errors := Validate(p, parseError);
    if errors == [] then Success(())
    else
      var lines := seq(|errors|, i requires 0 <= i < |errors| => "  - " + errors[i]);
      Failure(PromptValidation("Prompt validation failed:\n" + Join("\n", lines)))
  }
}
