/** The string operations of Python's `str` that the system relies on, over
    `seq<char>`: character classes, prefix/suffix tests, substring search,
    `split`/`join` on one separator character, `rstrip`/`strip`, `replace`,
    ASCII lower-casing, code-point ordering with a duplicate-free sort, and
    decimal integers (`str(int)` and `int(str)`). */
module Strings {
  import opened Wrappers

  // ---------------------------------------------------------------------
  // Character classes

  predicate IsAsciiLetter(c: char) { 'a' <= c <= 'z' || 'A' <= c <= 'Z' }

  predicate IsDigit(c: char) { '0' <= c <= '9' }

  /** `[a-zA-Z_]` */
  predicate IsIdentStart(c: char) { IsAsciiLetter(c) || c == '_' }

  /** `[a-zA-Z0-9_]` */
  predicate IsIdentChar(c: char) { IsIdentStart(c) || IsDigit(c) }

  /** Python's `str.isspace()`: the characters `strip()` removes and `\s`
      matches in a `str` regular expression. */
  predicate IsSpace(c: char) {
    || '\t' <= c <= '\r'
    || '\U{1C}' <= c <= ' '
    || c == '\U{85}' || c == '\U{A0}' || c == '\U{1680}'
    || '\U{2000}' <= c <= '\U{200A}'
    || c == '\U{2028}' || c == '\U{2029}' || c == '\U{202F}'
    || c == '\U{205F}' || c == '\U{3000}'
  }

  // ---------------------------------------------------------------------
  // Prefixes, suffixes, substrings

  predicate StartsWith(s: string, prefix: string) {
    |prefix| <= |s| && s[..|prefix|] == prefix
  }

  /** A text starts with whatever it is built from first. */
  lemma StartsWithConcat(a: string, b: string)
    ensures StartsWith(a + b, a)
  {
    assert (a + b)[..|a|] == a;
  }

  predicate EndsWith(s: string, suffix: string) {
    |suffix| <= |s| && s[|s| - |suffix|..] == suffix
  }

  /** Python's `sub in s`. */
  predicate Contains(s: string, sub: string)
    decreases |s|
  {
    StartsWith(s, sub) || (|s| > 0 && Contains(s[1..], sub))
  }

  /** An occurrence at any position is found. */
  lemma {:induction false} ContainsAt(s: string, sub: string, i: nat)
    requires i + |sub| <= |s|
    requires s[i..i + |sub|] == sub
    ensures Contains(s, sub)
    decreases i
  {
    if i > 0 {
      assert s[1..][i - 1..i - 1 + |sub|] == s[i..i + |sub|];
      ContainsAt(s[1..], sub, i - 1);
    }
  }

  // ---------------------------------------------------------------------
  // Character-wise maps

  /** Text that lower-cases to `w` inside a prefix `p` of `s` puts `w` in
      the lower-cased `s`. */
  lemma LoweredPrefixContains(s: string, p: string, w: string, i: nat)
    requires |p| <= |s| && s[..|p|] == p
    requires i + |w| <= |p|
    requires forall k :: 0 <= k < |w| ==> LowerChar(p[i + k]) == w[k]
    ensures Contains(Lower(s), w)
  {
    var t := Lower(s);
    forall k | 0 <= k < |w|
      ensures t[i + k] == w[k]
    {
      assert s[i + k] == p[i + k];
    }
    assert t[i..i + |w|] == w;
    ContainsAt(t, w, i);
  }

  /** Python's `s.replace(a, b)` for single characters. */
  function ReplaceChar(s: string, a: char, b: char): (r: string)
    ensures |r| == |s|
    ensures forall i :: 0 <= i < |s| ==> r[i] == (if s[i] == a then b else s[i])
  {
    if |s| == 0 then "" else [if s[0] == a then b else s[0]] + ReplaceChar(s[1..], a, b)
  }

  function LowerChar(c: char): char {
    if 'A' <= c <= 'Z' then (c as int + 32) as char else c
  }

  /** Python's `s.lower()` restricted to ASCII letters. */
  function Lower(s: string): (r: string)
    ensures |r| == |s|
    ensures forall i :: 0 <= i < |s| ==> r[i] == LowerChar(s[i])
  {
    if |s| == 0 then "" else [LowerChar(s[0])] + Lower(s[1..])
  }

  /** Python's `s.replace(pat, "")`: every non-overlapping occurrence of
      `pat`, found left to right, is deleted. */
  function RemoveAll(s: string, pat: string): (r: string)
    requires |pat| > 0
    ensures |r| <= |s|
    decreases |s|
  {
    if |s| < |pat| then s
    else if s[..|pat|] == pat then RemoveAll(s[|pat|..], pat)
    else [s[0]] + RemoveAll(s[1..], pat)
  }

  /** A leading occurrence is deleted. */
  lemma RemoveAllPrefix(pat: string, s: string)
    requires |pat| > 0
    ensures RemoveAll(pat + s, pat) == RemoveAll(s, pat)
  {
    assert (pat + s)[..|pat|] == pat;
    assert (pat + s)[|pat|..] == s;
  }

  /** A leading character that cannot start an occurrence is kept. */
  lemma RemoveAllCons(c: char, s: string, pat: string)
    requires |pat| > 0 && c != pat[0]
    ensures RemoveAll([c] + s, pat) == [c] + RemoveAll(s, pat)
  {
    assert ([c] + s)[1..] == s;
  }

  /** Text that cannot start an occurrence is kept as it is. */
  lemma {:induction false} RemoveAllKeep(a: string, s: string, pat: string)
    requires |pat| > 0 && pat[0] !in a
    ensures RemoveAll(a + s, pat) == a + RemoveAll(s, pat)
  {
    if |a| > 0 {
      assert a + s == [a[0]] + (a[1..] + s);
      RemoveAllCons(a[0], a[1..] + s, pat);
      RemoveAllKeep(a[1..], s, pat);
    } else {
      assert a + s == s;
    }
  }

  /** `s.rsplit(c, 1)[0]`: the text before the last `c`, or all of `s`
      when it has none. */
  function RSplitHead(s: string, c: char): (r: string)
    ensures StartsWith(s, r)
    ensures c !in s ==> r == s
    ensures c in s ==> |r| < |s| && s[|r|] == c && c !in s[|r| + 1..]
  {
    if c !in s then s
    else if s[|s| - 1] == c then s[..|s| - 1]
    else
      var r := RSplitHead(s[..|s| - 1], c);
      assert s[|r| + 1..] == s[..|s| - 1][|r| + 1..] + [s[|s| - 1]];
      r
  }

  /** What follows the last `c` holds no `c`, so the head is what precedes
      it. */
  lemma RSplitHeadOf(a: string, c: char, b: string)
    requires c !in b
    ensures RSplitHead(a + [c] + b, c) == a
  {
    var s := a + [c] + b;
    var r := RSplitHead(s, c);
    assert s[|a|] == c;
    assert r == s[..|r|];
  }

  // ---------------------------------------------------------------------
  // split / join on a single separator character

  /** Index of the first `c` in `s`, or `|s|` when there is none. */
  function IndexOf(s: string, c: char): (k: nat)
    ensures k <= |s|
    ensures k < |s| ==> s[k] == c
    ensures forall j :: 0 <= j < k ==> s[j] != c
  {
    if |s| == 0 then 0 else if s[0] == c then 0 else 1 + IndexOf(s[1..], c)
  }

  /** Python's `s.split(sep)` for a one-character separator: always at least
      one part, empty parts kept. */
  function Split(s: string, sep: char): (parts: seq<string>)
    ensures |parts| >= 1
    ensures forall i :: 0 <= i < |parts| ==> sep !in parts[i]
    decreases |s|
  {
    var k := IndexOf(s, sep);
    if k == |s| then [s] else [s[..k]] + Split(s[k + 1..], sep)
  }

  /** Python's `sep.join(parts)`. */
  function Join(sep: string, parts: seq<string>): string {
    if |parts| == 0 then ""
    else if |parts| == 1 then parts[0]
    else parts[0] + sep + Join(sep, parts[1..])
  }

  /** Joining the parts back with the separator gives the original text. */
  lemma {:induction false} SplitJoin(s: string, sep: char)
    ensures Join([sep], Split(s, sep)) == s
    decreases |s|
  {
    var k := IndexOf(s, sep);
    if k < |s| {
      var head, tail := s[..k], s[k + 1..];
      var rest := Split(tail, sep);
      assert Split(s, sep) == [head] + rest;
      SplitJoin(tail, sep);
      JoinCons([sep], head, rest);
      Around(s, k);
    }
  }

  /** A text is what lies before, at and after any of its positions. */
  lemma Around(s: string, k: nat)
    requires k < |s|
    ensures s == s[..k] + [s[k]] + s[k + 1..]
  {
  }

  /** Joining a part in front of at least one more. */
  lemma JoinCons(sep: string, x: string, rest: seq<string>)
    requires |rest| >= 1
    ensures Join(sep, [x] + rest) == x + sep + Join(sep, rest)
  {
    assert ([x] + rest)[1..] == rest;
  }

  /** Splitting a separator-free head followed by the separator. */
  lemma SplitCons(a: string, sep: char, b: string)
    requires sep !in a
    ensures Split(a + [sep] + b, sep) == [a] + Split(b, sep)
  {
    var s := a + [sep] + b;
    assert s[|a|] == sep;
    assert forall j :: 0 <= j < |a| ==> s[j] == a[j];
    var k := IndexOf(s, sep);
    assert k == |a|;
    assert s[..k] == a;
    assert s[k + 1..] == b;
  }

  lemma SplitNoSep(a: string, sep: char)
    requires sep !in a
    ensures Split(a, sep) == [a]
  {
  }

  /** Python's `s.split(sep)[-1]`: the text after the last separator. */
  function LastPart(s: string, sep: char): (r: string)
    ensures sep !in r
    ensures EndsWith(s, r)
    ensures |r| < |s| ==> s[|s| - |r| - 1] == sep
    ensures sep !in s ==> r == s
    decreases |s|
  {
    var k := IndexOf(s, sep);
    if k == |s| then s
    else
      var r := LastPart(s[k + 1..], sep);
      EndsWithTail(s, k + 1, r);
      r
  }

  /** A suffix of a tail of `s` is a suffix of `s`, and the character
      before it is the same one. */
  lemma EndsWithTail(s: string, j: nat, r: string)
    requires j <= |s| && EndsWith(s[j..], r)
    ensures EndsWith(s, r)
    ensures |r| < |s| - j ==> s[|s| - |r| - 1] == s[j..][|s| - j - |r| - 1]
    ensures |r| == |s| - j && j > 0 ==> s[|s| - |r| - 1] == s[j - 1]
  {
    assert s[|s| - |r|..] == s[j..][|s[j..]| - |r|..];
  }

  /** `LastPart` is Python's `s.split(sep)[-1]`. */
  lemma LastPartIsLastOfSplit(s: string, sep: char)
    ensures LastPart(s, sep) == Split(s, sep)[|Split(s, sep)| - 1]
  {
    LastOfSplitShape(s, sep);
    TrailingPartUnique(s, sep, LastPart(s, sep), Split(s, sep)[|Split(s, sep)| - 1]);
  }

  /** A trailing part of `s`: a separator-free suffix that is all of `s`
      or follows a separator. */
  ghost predicate TrailingPart(s: string, sep: char, r: string) {
    sep !in r && EndsWith(s, r) && (|r| < |s| ==> s[|s| - |r| - 1] == sep)
  }

  /** `s` has one trailing part: a longer one would contain the separator
      that precedes the shorter. */
  lemma TrailingPartUnique(s: string, sep: char, r1: string, r2: string)
    requires TrailingPart(s, sep, r1) && TrailingPart(s, sep, r2)
    ensures r1 == r2
  {
    if |r1| < |r2| {
      assert false;
    } else if |r2| < |r1| {
      assert false;
    }
  }

  /** The last part of `s.split(sep)` is a trailing part of `s`. */
  lemma LastOfSplitShape(s: string, sep: char)
    ensures TrailingPart(s, sep, Split(s, sep)[|Split(s, sep)| - 1])
  {
    SplitJoin(s, sep);
    JoinLastIsTrailing(sep, Split(s, sep));
  }

  /** Joining separator-free parts ends in the last part, after a separator
      when there is more than one part. */
  lemma {:induction false} JoinLastIsTrailing(sep: char, parts: seq<string>)
    requires |parts| >= 1 && forall i :: 0 <= i < |parts| ==> sep !in parts[i]
    ensures TrailingPart(Join([sep], parts), sep, parts[|parts| - 1])
  {
    if |parts| == 1 {
      assert Join([sep], parts) == parts[0];
      assert parts[0][|parts[0]| - |parts[0]|..] == parts[0];
    } else {
      var rest := parts[1..];
      assert forall i :: 0 <= i < |rest| ==> sep !in rest[i] by {
        forall i | 0 <= i < |rest| ensures sep !in rest[i] {
          assert rest[i] == parts[i + 1];
        }
      }
      JoinLastIsTrailing(sep, rest);
      assert parts[|parts| - 1] == rest[|rest| - 1];
      assert Join([sep], parts) == parts[0] + [sep] + Join([sep], rest);
      var whole := parts[0] + [sep] + Join([sep], rest);
      assert whole[|parts[0]| + 1..] == Join([sep], rest);
      TrailingPartAfterSeparator(whole, sep, |parts[0]|, rest[|rest| - 1]);
    }
  }

  /** A trailing part of the text after a separator is one of the whole text. */
  lemma TrailingPartAfterSeparator(s: string, sep: char, k: nat, r: string)
    requires k < |s| && s[k] == sep && TrailingPart(s[k + 1..], sep, r)
    ensures TrailingPart(s, sep, r)
  {
    EndsWithTail(s, k + 1, r);
  }

  /** The text after the last separator is the final segment when that
      segment has no separator of its own. */
  lemma LastPartAfter(a: string, sep: char, n: string)
    requires sep !in n
    ensures LastPart(a + [sep] + n, sep) == n
  {
    var s := a + [sep] + n;
    assert s[|s| - |n| - 1] == sep;
    assert forall i :: |s| - |n| <= i < |s| ==> s[i] == n[i - (|s| - |n|)];
    assert s[|s| - |n|..] == n;
  }

  // ---------------------------------------------------------------------
  // strip family

  /** Python's `s.rstrip(chars)`: drops trailing characters that belong to the
      SET `chars` (not a suffix). */
  function RStrip(s: string, chars: set<char>): (r: string)
    ensures |r| <= |s| && r == s[..|r|]
    ensures |r| == 0 || r[|r| - 1] !in chars
    ensures forall i :: |r| <= i < |s| ==> s[i] in chars
    decreases |s|
  {
    if |s| == 0 || s[|s| - 1] !in chars then s else RStrip(s[..|s| - 1], chars)
  }

  /** Python's `s.lstrip()` (whitespace). */
  function LStripSpace(s: string): (r: string)
    ensures |r| <= |s| && r == s[|s| - |r|..]
    ensures |r| == 0 || !IsSpace(r[0])
    ensures forall i :: 0 <= i < |s| - |r| ==> IsSpace(s[i])
  {
    if |s| == 0 || !IsSpace(s[0]) then s else LStripSpace(s[1..])
  }

  /** Python's `s.rstrip()` (whitespace). */
  function RStripSpace(s: string): (r: string)
    ensures |r| <= |s| && r == s[..|r|]
    ensures |r| == 0 || !IsSpace(r[|r| - 1])
    ensures forall i :: |r| <= i < |s| ==> IsSpace(s[i])
  {
    if |s| == 0 || !IsSpace(s[|s| - 1]) then s else RStripSpace(s[..|s| - 1])
  }

  /** Python's `s.strip()` (whitespace). */
  function Strip(s: string): (r: string)
    ensures |r| == 0 || (!IsSpace(r[0]) && !IsSpace(r[|r| - 1]))
  {
    RStripSpace(LStripSpace(s))
  }

  /** Text that has no surrounding whitespace is left alone by `strip()`. */
  lemma StripNoop(s: string)
    requires Unpadded(s)
    ensures Strip(s) == s
  {
  }

  // ---------------------------------------------------------------------
  // Code-point ordering, as Python compares `str` values

  predicate Less(a: string, b: string)
    decreases |a|
  {
    if |a| == 0 then |b| > 0
    else if |b| == 0 then false
    else if a[0] != b[0] then a[0] < b[0]
    else Less(a[1..], b[1..])
  }

  lemma LessIrreflexive(a: string)
    ensures !Less(a, a)
  {
  }

  lemma {:induction false} LessTransitive(a: string, b: string, c: string)
    requires Less(a, b) && Less(b, c)
    ensures Less(a, c)
    decreases |a|
  {
    if |a| > 0 && |b| > 0 && |c| > 0 && a[0] == b[0] && b[0] == c[0] {
      LessTransitive(a[1..], b[1..], c[1..]);
    }
  }

  lemma {:induction false} LessTotal(a: string, b: string)
    requires a != b
    ensures Less(a, b) || Less(b, a)
    decreases |a|
  {
    if |a| > 0 && |b| > 0 && a[0] == b[0] {
      assert a == [a[0]] + a[1..] && b == [b[0]] + b[1..];
      LessTotal(a[1..], b[1..]);
    }
  }

  lemma {:induction false} LessAsymmetric(a: string, b: string)
    requires Less(a, b)
    ensures !Less(b, a)
    decreases |a|
  {
    if |a| > 0 && |b| > 0 && a[0] == b[0] {
      LessAsymmetric(a[1..], b[1..]);
    }
  }

  predicate StrictlySorted(xs: seq<string>) {
    forall i, j :: 0 <= i < j < |xs| ==> Less(xs[i], xs[j])
  }

  /** Inserts `x` into a strictly sorted list, dropping it if present. */
  function Insert(x: string, xs: seq<string>): (r: seq<string>)
    requires StrictlySorted(xs)
    ensures StrictlySorted(r)
    ensures forall y :: y in r <==> y in xs || y == x
  {
    if |xs| == 0 then [x]
    else if x == xs[0] then xs
    else if Less(x, xs[0]) then
      forall j | 0 < j < |xs| ensures Less(x, xs[j]) {
        LessTransitive(x, xs[0], xs[j]);
      }
      [x] + xs
    else
      LessTotal(x, xs[0]);
      var t := Insert(x, xs[1..]);
      assert forall y :: y in t ==> Less(xs[0], y);
      [xs[0]] + t
  }

  /** Python's `sorted(set(xs))`: the distinct elements in increasing order. */
  function SortedUnique(xs: seq<string>): (r: seq<string>)
    ensures StrictlySorted(r)
    ensures forall y :: y in r <==> y in xs
  {
    if |xs| == 0 then [] else Insert(xs[|xs| - 1], SortedUnique(xs[..|xs| - 1]))
  }

  /** A strictly sorted list is determined by its elements: there is exactly
      one way to list a finite set of strings in increasing order. */
  lemma SameElementsSameEmptiness<T>(a: seq<T>, b: seq<T>)
    requires forall y :: y in a <==> y in b
    ensures |a| == 0 <==> |b| == 0
  {
    if |a| > 0 {
      assert a[0] in b;
    }
    if |b| > 0 {
      assert b[0] in a;
    }
  }

  lemma {:induction false} StrictlySortedUnique(a: seq<string>, b: seq<string>)
    requires StrictlySorted(a) && StrictlySorted(b)
    requires forall y :: y in a <==> y in b
    ensures a == b
  {
    SameElementsSameEmptiness(a, b);
    if |a| > 0 {
      assert a[0] in a && b[0] in b;
      if a[0] != b[0] {
        var i :| 0 <= i < |a| && a[i] == b[0];
        var j :| 0 <= j < |b| && b[j] == a[0];
        assert i > 0 && j > 0;
        LessAsymmetric(a[0], a[i]);
      }
      forall y ensures y in a[1..] <==> y in b[1..] {
        if y in a[1..] {
          var i :| 1 <= i < |a| && a[i] == y;
          LessIrreflexive(a[0]);
          assert y in a && y in b;
          var j :| 0 <= j < |b| && b[j] == y;
          assert j != 0;
          assert y == b[1..][j - 1];
        }
        if y in b[1..] {
          var j :| 1 <= j < |b| && b[j] == y;
          LessIrreflexive(b[0]);
          assert y in b && y in a;
          var i :| 0 <= i < |a| && a[i] == y;
          assert i != 0;
          assert y == a[1..][i - 1];
        }
      }
      StrictlySortedUnique(a[1..], b[1..]);
      assert a == [a[0]] + a[1..] && b == [b[0]] + b[1..];
    }
  }

  predicate NoDuplicates<T(==)>(xs: seq<T>) {
    forall i, j :: 0 <= i < j < |xs| ==> xs[i] != xs[j]
  }

  /** `xs` is `ys` with some elements left out: what a filtering
      comprehension keeps, in the original order. */
  predicate Subsequence<T(==)>(xs: seq<T>, ys: seq<T>)
    decreases |ys|
  {
    if |xs| == 0 then true
    else if |ys| == 0 then false
    else (xs[0] == ys[0] && Subsequence(xs[1..], ys[1..])) || Subsequence(xs, ys[1..])
  }

  /** A strictly sorted list has no duplicates. */
  lemma StrictlySortedNoDuplicates(xs: seq<string>)
    requires StrictlySorted(xs)
    ensures NoDuplicates(xs)
  {
    forall i, j | 0 <= i < j < |xs| ensures xs[i] != xs[j] {
      if xs[i] == xs[j] {
        LessIrreflexive(xs[i]);
      }
    }
  }

  // ---------------------------------------------------------------------
  // Decimal integers

  function DigitChar(d: nat): char
    requires d < 10
  {
    ('0' as int + d) as char
  }

  function DigitValue(c: char): nat
    requires IsDigit(c)
  {
    c as int - '0' as int
  }

  /** Python's `str(n)` for a natural number: no sign, no leading zero. */
  function NatToString(n: nat): (s: string)
    ensures |s| >= 1
    ensures forall i :: 0 <= i < |s| ==> IsDigit(s[i])
    ensures |s| > 1 ==> s[0] != '0'
  {
    if n < 10 then [DigitChar(n)] else NatToString(n / 10) + [DigitChar(n % 10)]
  }

  /** Python's `str(i)` for an integer. */
  function IntToString(i: int): (s: string)
    ensures |s| >= 1
    ensures forall k :: 0 <= k < |s| ==> IsDigit(s[k]) || (k == 0 && s[k] == '-')
  {
    if i < 0 then "-" + NatToString(-i) else NatToString(i)
  }

  predicate AllDigits(s: string) {
    forall i :: 0 <= i < |s| ==> IsDigit(s[i])
  }

  /** The value of a run of decimal digits, read left to right. */
  function DigitsValue(s: string): nat
    requires AllDigits(s)
  {
    if |s| == 0 then 0 else DigitsValue(s[..|s| - 1]) * 10 + DigitValue(s[|s| - 1])
  }

  /** Python's `int()` digit body: digits, with single `_` allowed between
      two digits. */
  predicate DoubleUnderscore(s: string, i: nat)
    requires i + 1 < |s|
  {
    s[i] == '_' && s[i + 1] == '_'
  }

  predicate IsDigitGroup(s: string) {
    && |s| > 0
    && IsDigit(s[0]) && IsDigit(s[|s| - 1])
    && (forall i :: 0 <= i < |s| ==> IsDigit(s[i]) || s[i] == '_')
    && (forall i :: 0 <= i < |s| - 1 ==> !DoubleUnderscore(s, i))
  }

  function DropUnderscores(s: string): (r: string)
    requires forall i :: 0 <= i < |s| ==> IsDigit(s[i]) || s[i] == '_'
    ensures AllDigits(r)
  {
    if |s| == 0 then "" else (if s[0] == '_' then "" else [s[0]]) + DropUnderscores(s[1..])
  }

  lemma DropUnderscoresOfDigits(s: string)
    requires AllDigits(s)
    ensures DropUnderscores(s) == s
  {
  }

  /** Python's `int(s)` on a `str`: surrounding whitespace, an optional sign,
      then a digit group; anything else is a `ValueError` (`None`). */
  function ParseInt(s: string): (r: Option<int>)
    ensures r.Some? ==> |Strip(s)| > 0
  {
    var t := Strip(s);
    if |t| == 0 then None
    else
      var neg := t[0] == '-';
      var body := if t[0] == '-' || t[0] == '+' then t[1..] else t;
      if !IsDigitGroup(body) then None
      else
        var v: int := DigitsValue(DropUnderscores(body));
        Some(if neg then -v else v)
  }

  lemma {:induction false} NatToStringValue(n: nat)
    ensures DigitsValue(NatToString(n)) == n
  {
    if n >= 10 {
      NatToStringValue(n / 10);
      var s := NatToString(n);
      assert s[..|s| - 1] == NatToString(n / 10);
    }
  }

  /** The decimal text of a natural number is a digit group read back as
      that number. */
  lemma NatToStringParses(n: nat)
    ensures IsDigitGroup(NatToString(n))
    ensures DigitsValue(DropUnderscores(NatToString(n))) == n
  {
    DropUnderscoresOfDigits(NatToString(n));
    NatToStringValue(n);
  }

  /** Text with no whitespace at either end. */
  predicate Unpadded(t: string) {
    |t| == 0 || (!IsSpace(t[0]) && !IsSpace(t[|t| - 1]))
  }

  /** `int()` of unpadded text that is a digit group. */
  lemma ParseIntDigits(t: string)
    requires Unpadded(t) && IsDigitGroup(t)
    ensures ParseInt(t) == Some(DigitsValue(DropUnderscores(t)))
  {
    StripNoop(t);
  }

  /** `int()` of unpadded text that is a minus sign and a digit group. */
  lemma ParseIntNegative(t: string)
    requires Unpadded(t) && |t| > 0 && t[0] == '-' && IsDigitGroup(t[1..])
    ensures ParseInt(t) == Some(-(DigitsValue(DropUnderscores(t[1..])) as int))
  {
    StripNoop(t);
  }

  lemma IntToStringUnpadded(i: int)
    ensures Unpadded(IntToString(i))
  {
    var s := IntToString(i);
    assert !IsSpace(s[0]) && !IsSpace(s[|s| - 1]);
  }

  /** `int(str(i)) == i`. */
  lemma IntToStringRoundTrip(i: int)
    ensures ParseInt(IntToString(i)) == Some(i)
  {
    if i < 0 {
      NegativeRoundTrip(i);
    } else {
      var s := IntToString(i);
      IntToStringUnpadded(i);
      NatToStringParses(i);
      ParseIntDigits(s);
    }
  }

  lemma NegativeRoundTrip(i: int)
    requires i < 0
    ensures ParseInt(IntToString(i)) == Some(i)
  {
    var s := IntToString(i);
    var n: nat := -i;
    IntToStringUnpadded(i);
    NatToStringParses(n);
    assert s == "-" + NatToString(n);
    assert s[1..] == NatToString(n);
    ParseIntNegative(s);
  }
}
