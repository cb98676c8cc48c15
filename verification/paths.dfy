/** The lexical part of `pathlib`: parsing a POSIX path string into segments,
    the `/` join operator, `str()` of a path, and `resolve()` reduced to `..`
    normalisation against a current directory (no symbolic links). */
module Paths {
  import opened Strings

  /** A pure path: absolute or relative, and its segments. `pathlib` drops
      empty and `.` segments when it parses; `..` is kept. */
  datatype Path = Path(absolute: bool, parts: seq<string>)

  predicate NormalPart(s: string) {
    s != "" && s != "." && '/' !in s
  }

  predicate Normal(p: Path) {
    forall i :: 0 <= i < |p.parts| ==> NormalPart(p.parts[i])
  }

  function KeepParts(xs: seq<string>): (r: seq<string>)
    requires forall i :: 0 <= i < |xs| ==> '/' !in xs[i]
    ensures forall i :: 0 <= i < |r| ==> NormalPart(r[i])
    ensures forall x :: x in r ==> x in xs
    ensures (forall i :: 0 <= i < |xs| ==> NormalPart(xs[i])) ==> r == xs
  {
    if |xs| == 0 then []
    else if xs[0] == "" || xs[0] == "." then KeepParts(xs[1..])
    else [xs[0]] + KeepParts(xs[1..])
  }

  /** `PurePosixPath(s)`. */
  function Parse(s: string): (p: Path)
    ensures Normal(p)
    ensures p.absolute <==> |s| > 0 && s[0] == '/'
  {
    Path(|s| > 0 && s[0] == '/', KeepParts(Split(s, '/')))
  }

  /** `base / rel`: an absolute right-hand side replaces the base. */
  function JoinPath(base: Path, rel: string): (p: Path)
    ensures Normal(base) ==> Normal(p)
    ensures |rel| > 0 && rel[0] == '/' ==> p == Parse(rel)
    ensures !(|rel| > 0 && rel[0] == '/') ==> p == Path(base.absolute, base.parts + Parse(rel).parts)
  {
    var r := Parse(rel);
    if r.absolute then r else Path(base.absolute, base.parts + r.parts)
  }

  /** `str(p)`. */
  function ToString(p: Path): string {
    if p.absolute then "/" + Strings.Join("/", p.parts)
    else if |p.parts| == 0 then "."
    else Strings.Join("/", p.parts)
  }

  /** Folds the segments into an absolute location, `..` going up one level
      (and staying at the root when there is nothing to go up from). */
  function Normalize(acc: seq<string>, xs: seq<string>): seq<string>
    decreases |xs|
  {
    if |xs| == 0 then acc
    else if xs[0] == ".." then Normalize(if |acc| > 0 then acc[..|acc| - 1] else acc, xs[1..])
    else Normalize(acc + [xs[0]], xs[1..])
  }

  /** `p.resolve()` when no symbolic link is involved: a relative path is
      taken from the current directory `cwd` (itself absolute, as segments). */
  function Resolve(cwd: seq<string>, p: Path): seq<string> {
    Normalize([], (if p.absolute then [] else cwd) + p.parts)
  }

  /** `a.is_relative_to(b)` on resolved locations. */
  predicate IsUnder(a: seq<string>, b: seq<string>) {
    |b| <= |a| && a[..|b|] == b
  }

  predicate NoParentRefs(xs: seq<string>) {
    forall i :: 0 <= i < |xs| ==> xs[i] != ".."
  }

  lemma {:induction false} NormalizeAppend(acc: seq<string>, xs: seq<string>, ys: seq<string>)
    ensures Normalize(acc, xs + ys) == Normalize(Normalize(acc, xs), ys)
    decreases |xs|
  {
    if |xs| > 0 {
      assert (xs + ys)[1..] == xs[1..] + ys;
      if xs[0] == ".." {
        NormalizeAppend(if |acc| > 0 then acc[..|acc| - 1] else acc, xs[1..], ys);
      } else {
        NormalizeAppend(acc + [xs[0]], xs[1..], ys);
      }
    } else {
      assert xs + ys == ys;
    }
  }

  lemma {:induction false} NormalizePlain(acc: seq<string>, xs: seq<string>)
    requires NoParentRefs(xs)
    ensures Normalize(acc, xs) == acc + xs
    decreases |xs|
  {
    if |xs| > 0 {
      NormalizePlain(acc + [xs[0]], xs[1..]);
      assert acc + [xs[0]] + xs[1..] == acc + xs;
    }
  }

  /** Joining a relative path without `..` segments onto a directory never
      leaves that directory. */
  lemma JoinStaysUnder(cwd: seq<string>, base: Path, rel: string)
    requires !(|rel| > 0 && rel[0] == '/')
    requires NoParentRefs(Parse(rel).parts)
    ensures Resolve(cwd, JoinPath(base, rel)) == Resolve(cwd, base) + Parse(rel).parts
    ensures IsUnder(Resolve(cwd, JoinPath(base, rel)), Resolve(cwd, base))
  {
    var pre := if base.absolute then [] else cwd;
    var r := Parse(rel).parts;
    assert (pre + (base.parts + r)) == (pre + base.parts) + r;
    NormalizeAppend([], pre + base.parts, r);
    NormalizePlain(Normalize([], pre + base.parts), r);
  }
}
