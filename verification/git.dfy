/** A git repository as a value: the commits the tools look at, the tags,
    the local and the remote-tracking branches, HEAD and the files of the
    working copy. Git's own machinery (object storage, fetch, merge) is not
    modelled; the tools only read this state or move HEAD. */
module Git {
  import opened Wrappers
  import opened Strings

  /** A commit: its full hexadecimal hash, its message, its commit time in
      seconds and the paths of the files in its tree, relative to the
      repository root, in the order a directory walk yields them. */
  datatype Commit = Commit(hexsha: string, message: string, date: int, files: seq<string>)

  /** A named reference to a commit: a tag, a local branch, or a
      remote-tracking branch named by its short name (`origin/main`). */
  datatype Ref = Ref(name: string, commit: Commit)

  /** HEAD follows a branch (which may not have a commit yet) or is
      detached at a commit. */
  datatype Head = OnBranch(branch: string) | Detached(commit: Commit)

  datatype Repo = Repo(
    tags: seq<Ref>,
    branches: seq<Ref>,
    remotes: seq<Ref>,
    head: Head,
    files: seq<string>)

  /** The names of `refs`, in order. */
  function RefNames(refs: seq<Ref>): (r: seq<string>)
    ensures |r| == |refs|
    ensures forall i :: 0 <= i < |refs| ==> r[i] == refs[i].name
  {
    if |refs| == 0 then [] else [refs[0].name] + RefNames(refs[1..])
  }

  /** The first reference called `name` (`RefIndex` says which). */
  function FindRef(refs: seq<Ref>, name: string): (r: Option<Ref>)
    ensures r.Some? <==> name in RefNames(refs)
    ensures r.Some? ==> r.value in refs && r.value.name == name
  {
    if |refs| == 0 then None
    else if refs[0].name == name then Some(refs[0])
    else FindRef(refs[1..], name)
  }

  /** The position of the first reference called `name`: where `FindRef`
      finds it, or `|refs|`. */
  function RefIndex(refs: seq<Ref>, name: string): (i: nat)
    ensures i <= |refs|
    ensures i < |refs| ==> refs[i].name == name
  {
    if |refs| == 0 then 0
    else if refs[0].name == name then 0
    else 1 + RefIndex(refs[1..], name)
  }

  /** `RefIndex` stops short of the end exactly when the name is present,
      and then points at what `FindRef` finds. */
  lemma {:induction false} RefIndexFinds(refs: seq<Ref>, name: string)
    ensures RefIndex(refs, name) < |refs| <==> name in RefNames(refs)
    ensures RefIndex(refs, name) < |refs| ==> FindRef(refs, name) == Some(refs[RefIndex(refs, name)])
  {
    if |refs| > 0 && refs[0].name != name {
      RefIndexFinds(refs[1..], name);
      assert RefNames(refs) == [refs[0].name] + RefNames(refs[1..]);
    }
  }

  /** No reference before the one `RefIndex` finds has the name. */
  lemma {:induction false} RefIndexFirst(refs: seq<Ref>, name: string, j: nat)
    requires j < RefIndex(refs, name)
    ensures refs[j].name != name
  {
    if j > 0 {
      RefIndexFirst(refs[1..], name, j - 1);
    }
  }

  /** A reference appended under a new name is the one `FindRef` finds. */
  lemma {:induction false} FindRefAppendAbsent(refs: seq<Ref>, ref: Ref)
    requires ref.name !in RefNames(refs)
    ensures FindRef(refs + [ref], ref.name) == Some(ref)
  {
    if |refs| > 0 {
      assert RefNames(refs) == [refs[0].name] + RefNames(refs[1..]);
      assert (refs + [ref])[1..] == refs[1..] + [ref];
      FindRefAppendAbsent(refs[1..], ref);
    }
  }

  /** `hexsha[:8]`. */
  function ShortHash(hexsha: string): (r: string)
    ensures StartsWith(hexsha, r)
    ensures |r| <= 8
    ensures |hexsha| >= 8 ==> |r| == 8
    ensures |hexsha| < 8 ==> r == hexsha
  {
    if |hexsha| <= 8 then hexsha else hexsha[..8]
  }

  /** The first part of `s.split(sep)` is `s` up to the first `sep`. */
  lemma SplitFirst(s: string, sep: char)
    ensures Split(s, sep)[0] == s[..IndexOf(s, sep)]
  {
  }

  /** `message.split("\n")[0]`: the message's first line. */
  function FirstLine(message: string): (r: string)
    ensures StartsWith(message, r)
    ensures '\n' !in r
    ensures |r| < |message| ==> message[|r|] == '\n'
  {
    SplitFirst(message, '\n');
    Split(message, '\n')[0]
  }

  /** The commit HEAD points at, if any. */
  function HeadCommit(repo: Repo): (r: Option<Commit>)
    ensures repo.head.Detached? ==> r == Some(repo.head.commit)
    ensures repo.head.OnBranch? ==>
      (r.Some? <==> repo.head.branch in RefNames(repo.branches))
  {
    match repo.head
    case Detached(c) => Some(c)
    case OnBranch(b) =>
      match FindRef(repo.branches, b)
      case None => None
      case Some(ref) => Some(ref.commit)
  }

  // ---------------------------------------------------------------------
  // Remote-tracking branches as `git branch -r` lists them

  /** The lines of `git branch -r --format=%(refname:short)`, each with
      surrounding whitespace stripped. */
  function RemoteLines(repo: Repo): (r: seq<string>)
    ensures |r| == |repo.remotes|
    ensures forall i :: 0 <= i < |r| ==> r[i] == Strip(repo.remotes[i].name)
  {
    seq(|repo.remotes|, i requires 0 <= i < |repo.remotes| => Strip(repo.remotes[i].name))
  }

  /** A line that names a branch of the `origin` remote, other than the
      remote's own HEAD. */
  predicate IsOriginBranch(line: string) {
    StartsWith(line, "origin/") && line != "origin/HEAD"
  }

  /** `line.replace("origin/", "")`, as the branch listing and the worktree
      manager compute a branch name: every occurrence is deleted, not only
      the leading one. */
  function RemoteBranchNameAsWritten(line: string): (r: string)
    ensures |r| <= |line|
  {
    RemoveAll(line, "origin/")
  }

  /** The branch name of an `origin/` line: the line without its leading
      `origin/`. */
  function RemoteBranchName(line: string): (r: string)
    requires StartsWith(line, "origin/")
    ensures "origin/" + r == line
  {
    line[7..]
  }

  /** The line of a remote branch `t + "origin/" + x`. */
  function InnerOriginLine(t: string, x: string): string {
    "origin/" + (t + ("origin/" + x))
  }

  /** A branch whose name itself contains `origin/` is renamed by the
      replacement: `origin/team/origin/x` (`t` = `team/`, `x` = `x`) lists
      as `team/x`, a branch the remote does not have, while the prefix
      removal keeps its name. */
  lemma ReplaceDropsInnerOrigin(t: string, x: string)
    requires 'o' !in t && 'o' !in x
    ensures IsOriginBranch(InnerOriginLine(t, x))
    ensures RemoteBranchNameAsWritten(InnerOriginLine(t, x)) == t + x
    ensures RemoteBranchName(InnerOriginLine(t, x)) == t + ("origin/" + x)
    ensures "origin/" + RemoteBranchNameAsWritten(InnerOriginLine(t, x)) != InnerOriginLine(t, x)
  {
    var pat := "origin/";
    var line := InnerOriginLine(t, x);
    StartsWithConcat(pat, t + (pat + x));
    assert line != pat + "HEAD" by {
      assert |line| >= |pat| + |pat| > |pat + "HEAD"|;
    }
    RemoveAllPrefix(pat, t + (pat + x));
    RemoveAllKeep(t, pat + x, pat);
    RemoveAllPrefix(pat, x);
    RemoveAllKeep(x, [], pat);
    assert x + [] == x;
    assert |pat + (t + x)| < |line|;
  }

  /** The names of the `origin` branches, in listing order (the corrected
      name extraction). */
  function OriginBranches(lines: seq<string>): (r: seq<string>)
    ensures forall x :: x in r <==> ("origin/" + x) in lines && x != "HEAD"
  {
    if |lines| == 0 then []
    else
      var rest := OriginBranches(lines[1..]);
      if IsOriginBranch(lines[0]) then
        var x0 := RemoteBranchName(lines[0]);
        assert forall x :: "origin/" + x == lines[0] ==> x == x0 by {
          forall x | "origin/" + x == lines[0] ensures x == x0 {
            assert x == ("origin/" + x)[7..];
          }
        }
        [x0] + rest
      else
        assert forall x :: "origin/" + x == lines[0] ==> x == "HEAD" by {
          forall x | "origin/" + x == lines[0] ensures x == "HEAD" {
            assert ("origin/" + x)[..7] == "origin/";
          }
        }
        rest
  }
}
