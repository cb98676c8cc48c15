/** The version manager: which version the working copy is at, the branch
    and tag listings, checkout and rollback, and the arguments of a prompt
    diff, all over a repository value. */
module Versioning {
  import opened Wrappers
  import opened Strings
  import opened Values
  import opened Errors
  import opened Git

  /** A branch or tag with the commit it names. */
  datatype VersionInfo = VersionInfo(
    branchOrTag: string,
    commitHash: string,
    commitMessage: string,
    commitDate: int,
    isBranch: bool)

  /** A branch in the listing. */
  datatype BranchInfo = BranchInfo(name: string, commitHash: string, isCurrent: bool)

  /** How a version entry reports commit `c` under `name`. */
  function Describe(name: string, c: Commit, isBranch: bool): VersionInfo {
    VersionInfo(name, ShortHash(c.hexsha), FirstLine(c.message), c.date, isBranch)
  }

  // ---------------------------------------------------------------------
  // The current version

  /** The first tag (in listing order) that points at the commit with hash
      `hexsha`. */
  function FirstTagAt(tags: seq<Ref>, hexsha: string): (r: Option<Ref>)
    ensures r.None? <==> forall i :: 0 <= i < |tags| ==> tags[i].commit.hexsha != hexsha
    ensures r.Some? ==> r.value in tags && r.value.commit.hexsha == hexsha
    ensures r.Some? ==>
      exists i :: 0 <= i < |tags| && tags[i] == r.value && forall j :: 0 <= j < i ==> tags[j].commit.hexsha != hexsha
  {
    if |tags| == 0 then None
    else if tags[0].commit.hexsha == hexsha then Some(tags[0])
    else
      var r := FirstTagAt(tags[1..], hexsha);
      assert r.None? ==> forall i :: 1 <= i < |tags| ==> tags[i] == tags[1..][i - 1];
      if r.Some? then
        var i :| 0 <= i < |tags| - 1 && tags[1..][i] == r.value
          && forall j :: 0 <= j < i ==> tags[1..][j].commit.hexsha != hexsha;
        assert tags[i + 1] == r.value;
        assert forall j :: 0 <= j < i + 1 ==> tags[j].commit.hexsha != hexsha by {
          forall j | 0 <= j < i + 1 ensures tags[j].commit.hexsha != hexsha {
            if j > 0 { assert tags[j] == tags[1..][j - 1]; }
          }
        }
        r
      else r
  }

  /** `current_version()`: the branch HEAD follows, or for a detached HEAD
      the first tag at the commit (`HEAD` when there is none). A branch
      without a commit has no version. */
  function CurrentVersion(repo: Repo): (r: Result<VersionInfo, Error>)
    ensures r.Success? <==> HeadCommit(repo).Some?
    ensures r.Success? ==> r.value.commitHash == ShortHash(HeadCommit(repo).value.hexsha)
    ensures r.Success? ==> r.value.commitMessage == FirstLine(HeadCommit(repo).value.message)
    ensures r.Success? ==> r.value.commitDate == HeadCommit(repo).value.date
    ensures r.Success? ==> (r.value.isBranch <==> repo.head.OnBranch?)
    ensures r.Success? && repo.head.OnBranch? ==> r.value.branchOrTag == repo.head.branch
    ensures repo.head.Detached? && FirstTagAt(repo.tags, repo.head.commit.hexsha).None? ==>
      r.Success? && r.value.branchOrTag == "HEAD"
    ensures repo.head.Detached? && FirstTagAt(repo.tags, repo.head.commit.hexsha).Some? ==>
      r.Success? && r.value.branchOrTag == FirstTagAt(repo.tags, repo.head.commit.hexsha).value.name
    ensures r.Failure? ==> r.error.VersionErr? && StartsWith(r.error.msg, "Failed to get current version: ")
  {
    match repo.head
    case Detached(c) =>
      (match FirstTagAt(repo.tags, c.hexsha)
       case Some(tag) => Success(Describe(tag.name, c, false))
       case None => Success(Describe("HEAD", c, false)))
    case OnBranch(b) =>
      match FindRef(repo.branches, b)
      case None =>
        Failure(VersionErr("Failed to get current version: Reference at 'refs/heads/" + b + "' does not exist"))
      case Some(ref) => Success(Describe(b, ref.commit, true))
  }

  // ---------------------------------------------------------------------
  // Listing branches

  /** The names in a branch listing, in order. */
  function Names(bs: seq<BranchInfo>): (r: seq<string>)
    ensures |r| == |bs|
    ensures forall i :: 0 <= i < |bs| ==> r[i] == bs[i].name
  {
    if |bs| == 0 then [] else [bs[0].name] + Names(bs[1..])
  }

  /** The active branch's name, `None` when HEAD is detached. */
  function CurrentBranch(repo: Repo): (r: Option<string>)
    ensures r.Some? <==> repo.head.OnBranch?
    ensures r.Some? ==> r.value == repo.head.branch
  {
    if repo.head.OnBranch? then Some(repo.head.branch) else None
  }

  /** The listing entry of a local branch. */
  function LocalEntry(ref: Ref, current: Option<string>): BranchInfo {
    BranchInfo(ref.name, ShortHash(ref.commit.hexsha), current == Some(ref.name))
  }

  /** The loop over the local branches, after the first `k` of them: a
      branch is added unless its name was already seen. */
  function LocalEntries(refs: seq<Ref>, current: Option<string>, k: nat): seq<BranchInfo>
    requires k <= |refs|
  {
    if k == 0 then []
    else
      var acc := LocalEntries(refs, current, k - 1);
      if refs[k - 1].name in Names(acc) then acc else acc + [LocalEntry(refs[k - 1], current)]
  }

  /** Appending an entry appends its name. */
  lemma NamesAppend(bs: seq<BranchInfo>, b: BranchInfo)
    ensures Names(bs + [b]) == Names(bs) + [b.name]
  {
  }

  /** After `k` local branches, a name is listed exactly when its first
      occurrence is among them. */
  lemma {:induction false} LocalNames(refs: seq<Ref>, current: Option<string>, k: nat)
    requires k <= |refs|
    ensures forall x :: x in Names(LocalEntries(refs, current, k)) <==> RefIndex(refs, x) < k
  {
    if k > 0 {
      LocalNames(refs, current, k - 1);
      var acc := LocalEntries(refs, current, k - 1);
      if refs[k - 1].name !in Names(acc) {
        NamesAppend(acc, LocalEntry(refs[k - 1], current));
      }
      FirstOccurrenceStep(refs, k, Names(acc), Names(LocalEntries(refs, current, k)));
    }
  }

  /** `LocalNames` for one name. */
  lemma LocalNameAt(refs: seq<Ref>, current: Option<string>, k: nat, x: string)
    requires k <= |refs|
    ensures x in Names(LocalEntries(refs, current, k)) <==> RefIndex(refs, x) < k
  {
    LocalNames(refs, current, k);
  }

  /** Adding the `k`-th name unless it was seen keeps exactly the names
      whose first occurrence has been passed. */
  lemma FirstOccurrenceStep(refs: seq<Ref>, k: nat, before: seq<string>, after: seq<string>)
    requires 0 < k <= |refs|
    requires forall x :: x in before <==> RefIndex(refs, x) < k - 1
    requires after == if refs[k - 1].name in before then before else before + [refs[k - 1].name]
    ensures forall x :: x in after <==> RefIndex(refs, x) < k
  {
    var n := refs[k - 1].name;
    FirstOccurrenceAt(refs, k, n);
    forall x ensures x in after <==> RefIndex(refs, x) < k {
      FirstOccurrenceAt(refs, k, x);
      if n !in before {
        assert x in after <==> x in before || x == n;
      }
    }
  }

  /** A name first occurs before `k` exactly when it first occurs before
      `k - 1` or is the name at `k - 1`. */
  lemma FirstOccurrenceAt(refs: seq<Ref>, k: nat, x: string)
    requires 0 < k <= |refs|
    ensures RefIndex(refs, x) < k <==> RefIndex(refs, x) < k - 1 || x == refs[k - 1].name
  {
    var i := RefIndex(refs, x);
    if x == refs[k - 1].name {
      if k - 1 < i {
        RefIndexFirst(refs, x, k - 1);
      }
    } else if i < |refs| {
      assert refs[i].name == x;
    }
  }

  /** Each entry of `bs` describes the first branch of its name, which is
      among the first `k`. */
  predicate DescribesFirst(refs: seq<Ref>, current: Option<string>, bs: seq<BranchInfo>, k: nat)
    requires k <= |refs|
  {
    forall i :: 0 <= i < |bs| ==>
      RefIndex(refs, bs[i].name) < k && bs[i] == LocalEntry(refs[RefIndex(refs, bs[i].name)], current)
  }

  lemma DescribesFirstAppend(refs: seq<Ref>, current: Option<string>, bs: seq<BranchInfo>, k: nat)
    requires k < |refs| && DescribesFirst(refs, current, bs, k) && RefIndex(refs, refs[k].name) == k
    ensures DescribesFirst(refs, current, bs + [LocalEntry(refs[k], current)], k + 1)
  {
    var r := bs + [LocalEntry(refs[k], current)];
    forall i | 0 <= i < |r|
      ensures RefIndex(refs, r[i].name) < k + 1 && r[i] == LocalEntry(refs[RefIndex(refs, r[i].name)], current)
    {
      if i < |bs| {
        assert r[i] == bs[i];
      }
    }
  }

  lemma DescribesFirstWiden(refs: seq<Ref>, current: Option<string>, bs: seq<BranchInfo>, k: nat)
    requires k < |refs| && DescribesFirst(refs, current, bs, k)
    ensures DescribesFirst(refs, current, bs, k + 1)
  {
  }

  /** One step of the local loop keeps every entry describing the first
      branch of its name. */
  lemma DescribesFirstStep(refs: seq<Ref>, current: Option<string>, acc: seq<BranchInfo>, k: nat,
                           next: seq<BranchInfo>)
    requires 0 < k <= |refs| && DescribesFirst(refs, current, acc, k - 1)
    requires refs[k - 1].name !in Names(acc) ==> RefIndex(refs, refs[k - 1].name) == k - 1
    requires next == if refs[k - 1].name in Names(acc) then acc else acc + [LocalEntry(refs[k - 1], current)]
    ensures DescribesFirst(refs, current, next, k)
  {
    if refs[k - 1].name in Names(acc) {
      DescribesFirstWiden(refs, current, acc, k - 1);
    } else {
      DescribesFirstAppend(refs, current, acc, k - 1);
    }
  }

  /** Each local entry describes the first branch of its name. */
  lemma {:induction false} LocalShape(refs: seq<Ref>, current: Option<string>, k: nat)
    requires k <= |refs|
    ensures DescribesFirst(refs, current, LocalEntries(refs, current, k), k)
  {
    if k > 0 {
      LocalShape(refs, current, k - 1);
      var acc := LocalEntries(refs, current, k - 1);
      var n := refs[k - 1].name;
      if n !in Names(acc) {
        LocalNameAt(refs, current, k - 1, n);
        FirstOccurrenceAt(refs, k, n);
      }
      DescribesFirstStep(refs, current, acc, k, LocalEntries(refs, current, k));
    }
  }

  /** Entries listed in the order in which their names first occur in `refs`. */
  predicate FirstOccurrenceOrder(refs: seq<Ref>, bs: seq<BranchInfo>) {
    forall i, j :: 0 <= i < j < |bs| ==> RefIndex(refs, bs[i].name) < RefIndex(refs, bs[j].name)
  }

  /** Appending an entry whose name occurs after every listed one keeps
      the order. */
  lemma FirstOccurrenceAppend(refs: seq<Ref>, bs: seq<BranchInfo>, b: BranchInfo)
    requires FirstOccurrenceOrder(refs, bs)
    requires forall i :: 0 <= i < |bs| ==> RefIndex(refs, bs[i].name) < RefIndex(refs, b.name)
    ensures FirstOccurrenceOrder(refs, bs + [b])
  {
    var r := bs + [b];
    forall i, j | 0 <= i < j < |r| ensures RefIndex(refs, r[i].name) < RefIndex(refs, r[j].name) {
      assert r[i] == bs[i];
    }
  }

  /** Every listed name first occurs before `k` when the listing holds only
      such names. */
  lemma NamesBelow(refs: seq<Ref>, bs: seq<BranchInfo>, k: nat)
    requires forall x :: x in Names(bs) ==> RefIndex(refs, x) < k
    ensures forall i :: 0 <= i < |bs| ==> RefIndex(refs, bs[i].name) < k
  {
    forall i | 0 <= i < |bs| ensures RefIndex(refs, bs[i].name) < k {
      assert Names(bs)[i] in Names(bs);
    }
  }

  /** Local entries follow the order in which their names first occur. */
  lemma {:induction false} LocalOrder(refs: seq<Ref>, current: Option<string>, k: nat)
    requires k <= |refs|
    ensures FirstOccurrenceOrder(refs, LocalEntries(refs, current, k))
  {
    if k > 0 {
      LocalOrder(refs, current, k - 1);
      var acc := LocalEntries(refs, current, k - 1);
      var n := refs[k - 1].name;
      if n !in Names(acc) {
        LocalNames(refs, current, k - 1);
        FirstOccurrenceAt(refs, k, n);
        NamesBelow(refs, acc, k - 1);
        assert LocalEntries(refs, current, k) == acc + [LocalEntry(refs[k - 1], current)];
        FirstOccurrenceAppend(refs, acc, LocalEntry(refs[k - 1], current));
      }
    }
  }

  const ListFailure := "Failed to list branches: "

  /** One `git branch -r` line: an `origin/` branch not seen yet is added
      with the hash `git rev-parse` gives for it; a revision git cannot
      resolve fails the whole listing. */
  function RemoteStep(repo: Repo, acc: seq<BranchInfo>, line: string, asWritten: bool)
    : (r: Result<seq<BranchInfo>, Error>)
    ensures r.Failure? ==> r.error.VersionErr? && StartsWith(r.error.msg, ListFailure)
  {
    if !IsOriginBranch(line) then Success(acc)
    else
      var name := if asWritten then RemoteBranchNameAsWritten(line) else RemoteBranchName(line);
      if name in Names(acc) then Success(acc)
      else
        match FindRef(repo.remotes, "origin/" + name)
        case None =>
          var detail := "fatal: ambiguous argument 'origin/" + name
            + "': unknown revision or path not in the working tree.";
          StartsWithConcat(ListFailure, detail);
          Failure(VersionErr(ListFailure + detail))
        case Some(ref) => Success(acc + [BranchInfo(name, ShortHash(ref.commit.hexsha), false)])
  }

  /** The loop over the first `k` remote lines, starting from `start`. */
  function RemoteEntries(repo: Repo, lines: seq<string>, k: nat, start: seq<BranchInfo>, asWritten: bool)
    : (r: Result<seq<BranchInfo>, Error>)
    requires k <= |lines|
    ensures r.Failure? ==> r.error.VersionErr? && StartsWith(r.error.msg, ListFailure)
  {
    if k == 0 then Success(start)
    else
      match RemoteEntries(repo, lines, k - 1, start, asWritten)
      case Failure(e) => Failure(e)
      case Success(acc) => RemoteStep(repo, acc, lines[k - 1], asWritten)
  }

  /** An entry for a branch only the remote has: never current, with the
      hash of the remote-tracking branch. */
  predicate RemoteEntryOk(repo: Repo, b: BranchInfo) {
    && !b.isCurrent
    && ("origin/" + b.name) in RefNames(repo.remotes)
    && b.commitHash == ShortHash(FindRef(repo.remotes, "origin/" + b.name).value.commit.hexsha)
  }

  /** The `origin/` line of branch `x` is among the first `k` lines. */
  predicate OriginLineBefore(lines: seq<string>, k: nat, x: string)
    requires k <= |lines|
  {
    ("origin/" + x) in lines[..k] && x != "HEAD"
  }

  /** The branch an `origin/` line names is the one whose line it is. */
  lemma OriginLineOf(line: string, x: string)
    ensures ("origin/" + x == line && x != "HEAD") <==> (IsOriginBranch(line) && x == RemoteBranchName(line))
  {
    if "origin/" + x == line {
      assert x == ("origin/" + x)[7..];
      assert ("origin/" + x)[..7] == "origin/";
    }
  }

  /** The remote loop keeps what it started from as a prefix. */
  lemma {:induction false} RemotePrefix(repo: Repo, lines: seq<string>, k: nat, start: seq<BranchInfo>)
    requires k <= |lines|
    ensures RemoteEntries(repo, lines, k, start, false).Success? ==>
      var r := RemoteEntries(repo, lines, k, start, false).value;
      |start| <= |r| && r[..|start|] == start
  {
    if k > 0 {
      RemotePrefix(repo, lines, k - 1, start);
    }
  }

  /** After `k` remote lines the listed names are the starting ones and the
      `origin/` branches of those lines. */
  lemma {:induction false} RemoteNames(repo: Repo, lines: seq<string>, k: nat, start: seq<BranchInfo>)
    requires k <= |lines|
    ensures RemoteEntries(repo, lines, k, start, false).Success? ==>
      forall x :: x in Names(RemoteEntries(repo, lines, k, start, false).value) <==>
        x in Names(start) || OriginLineBefore(lines, k, x)
  {
    if k > 0 {
      RemoteNames(repo, lines, k - 1, start);
      assert lines[..k] == lines[..k - 1] + [lines[k - 1]];
      var prev := RemoteEntries(repo, lines, k - 1, start, false);
      if prev.Success? {
        var acc := prev.value;
        var line := lines[k - 1];
        forall x ensures ("origin/" + x == line && x != "HEAD") <==> (IsOriginBranch(line) && x == RemoteBranchName(line)) {
          OriginLineOf(line, x);
        }
        if IsOriginBranch(line) {
          var name := RemoteBranchName(line);
          var ref := FindRef(repo.remotes, "origin/" + name);
          if name !in Names(acc) && ref.Some? {
            NamesAppend(acc, BranchInfo(name, ShortHash(ref.value.commit.hexsha), false));
          }
        }
      }
    }
  }

  /** Every entry the remote loop adds is an entry for a remote branch. */
  lemma {:induction false} RemoteAddedOk(repo: Repo, lines: seq<string>, k: nat, start: seq<BranchInfo>)
    requires k <= |lines|
    ensures RemoteEntries(repo, lines, k, start, false).Success? ==>
      var r := RemoteEntries(repo, lines, k, start, false).value;
      forall i :: |start| <= i < |r| ==> RemoteEntryOk(repo, r[i])
  {
    if k > 0 {
      RemoteAddedOk(repo, lines, k - 1, start);
      RemotePrefix(repo, lines, k - 1, start);
      var prev := RemoteEntries(repo, lines, k - 1, start, false);
      if prev.Success? && IsOriginBranch(lines[k - 1]) {
        var name := RemoteBranchName(lines[k - 1]);
        assert RemoteEntries(repo, lines, k, start, false) == RemoteStep(repo, prev.value, lines[k - 1], false);
      }
    }
  }

  /** Every entry from position `m` on has a name no earlier entry has. */
  predicate FreshFrom(r: seq<BranchInfo>, m: nat) {
    forall i, j :: 0 <= j < i < |r| && m <= i ==> r[j].name != r[i].name
  }

  /** Every entry the remote loop adds has a name no earlier entry has. */
  lemma {:induction false} RemoteAddedFresh(repo: Repo, lines: seq<string>, k: nat, start: seq<BranchInfo>)
    requires k <= |lines|
    ensures RemoteEntries(repo, lines, k, start, false).Success? ==>
      FreshFrom(RemoteEntries(repo, lines, k, start, false).value, |start|)
  {
    if k > 0 {
      RemoteAddedFresh(repo, lines, k - 1, start);
      var prev := RemoteEntries(repo, lines, k - 1, start, false);
      if prev.Success? && IsOriginBranch(lines[k - 1]) {
        var acc := prev.value;
        var name := RemoteBranchName(lines[k - 1]);
        var step := RemoteStep(repo, acc, lines[k - 1], false);
        assert RemoteEntries(repo, lines, k, start, false) == step;
        if name !in Names(acc) && step.Success? {
          forall j | 0 <= j < |acc| ensures acc[j].name != name {
            assert Names(acc)[j] == acc[j].name;
          }
          var ref := FindRef(repo.remotes, "origin/" + name).value;
          var r := step.value;
          assert r == acc + [BranchInfo(name, ShortHash(ref.commit.hexsha), false)];
          forall i, j | 0 <= j < i < |r| && |start| <= i ensures r[j].name != r[i].name {
            if i < |acc| {
              assert r[i] == acc[i] && r[j] == acc[j];
              assert acc[j].name != acc[i].name;
            } else {
              assert r[j] == acc[j];
              assert r[i].name == name;
              assert acc[j].name != name;
            }
          }
        }
      }
    }
  }

  /** Remote-tracking branch names that `strip()` leaves alone (git's
      reference-name rules forbid spaces and control characters). */
  predicate PlainRemoteNames(repo: Repo) {
    forall i :: 0 <= i < |repo.remotes| ==> Strip(repo.remotes[i].name) == repo.remotes[i].name
  }

  /** With the prefix removed (not every occurrence replaced), every
      `origin/` line names a remote-tracking branch, so the remote loop
      never fails. */
  lemma {:induction false} RemoteEntriesSucceed(
    repo: Repo, lines: seq<string>, k: nat, start: seq<BranchInfo>)
    requires k <= |lines|
    requires forall i :: 0 <= i < |lines| ==> lines[i] in RefNames(repo.remotes)
    ensures RemoteEntries(repo, lines, k, start, false).Success?
  {
    if k > 0 {
      RemoteEntriesSucceed(repo, lines, k - 1, start);
      var acc := RemoteEntries(repo, lines, k - 1, start, false).value;
      RemoteStepSucceeds(repo, acc, lines[k - 1]);
    }
  }

  /** A line naming a remote-tracking branch never fails its step. */
  lemma RemoteStepSucceeds(repo: Repo, acc: seq<BranchInfo>, line: string)
    requires line in RefNames(repo.remotes)
    ensures RemoteStep(repo, acc, line, false).Success?
  {
    if IsOriginBranch(line) {
      assert "origin/" + RemoteBranchName(line) == line;
    }
  }

  /** `list_branches()` (after the fetch, which only refreshes the state):
      the local branches, then the `origin/` branches not listed yet. */
  function ListBranches(repo: Repo): (r: Result<seq<BranchInfo>, Error>)
    ensures r.Failure? ==> r.error.VersionErr? && StartsWith(r.error.msg, ListFailure)
  {
    var local := LocalEntries(repo.branches, CurrentBranch(repo), |repo.branches|);
    RemoteEntries(repo, RemoteLines(repo), |RemoteLines(repo)|, local, false)
  }

  /** The listing as written, naming a remote branch by deleting every
      `origin/` from its line. */
  function ListBranchesAsWritten(repo: Repo): (r: Result<seq<BranchInfo>, Error>)
    ensures r.Failure? ==> r.error.VersionErr? && StartsWith(r.error.msg, ListFailure)
  {
    var local := LocalEntries(repo.branches, CurrentBranch(repo), |repo.branches|);
    RemoteEntries(repo, RemoteLines(repo), |RemoteLines(repo)|, local, true)
  }

  /** For plain remote names the listing always succeeds. */
  lemma ListBranchesSucceeds(repo: Repo)
    requires PlainRemoteNames(repo)
    ensures ListBranches(repo).Success?
  {
    var lines := RemoteLines(repo);
    forall i | 0 <= i < |lines| ensures lines[i] in RefNames(repo.remotes) {
      assert RefNames(repo.remotes)[i] == lines[i];
    }
    RemoteEntriesSucceed(repo, lines, |lines|,
      LocalEntries(repo.branches, CurrentBranch(repo), |repo.branches|));
  }

  /** The local part of the listing. */
  function LocalPart(repo: Repo): seq<BranchInfo> {
    LocalEntries(repo.branches, CurrentBranch(repo), |repo.branches|)
  }

  /** The local part lists each local branch name once, in order of first
      occurrence, with the first branch's hash, current exactly when HEAD
      is on it. */
  lemma LocalPartSpec(repo: Repo)
    ensures forall x :: x in Names(LocalPart(repo)) <==> x in RefNames(repo.branches)
    ensures forall i, j :: 0 <= i < j < |LocalPart(repo)| ==>
      RefIndex(repo.branches, LocalPart(repo)[i].name) < RefIndex(repo.branches, LocalPart(repo)[j].name)
    ensures NoDuplicates(Names(LocalPart(repo)))
    ensures forall i :: 0 <= i < |LocalPart(repo)| ==>
      LocalPart(repo)[i].name in RefNames(repo.branches)
      && LocalPart(repo)[i].commitHash
         == ShortHash(FindRef(repo.branches, LocalPart(repo)[i].name).value.commit.hexsha)
      && (LocalPart(repo)[i].isCurrent <==> repo.head == OnBranch(LocalPart(repo)[i].name))
  {
    var refs := repo.branches;
    var current := CurrentBranch(repo);
    LocalNames(refs, current, |refs|);
    LocalShape(refs, current, |refs|);
    LocalOrder(refs, current, |refs|);
    forall x {
      RefIndexFinds(refs, x);
    }
    var l := LocalPart(repo);
    forall i, j | 0 <= i < j < |l| ensures Names(l)[i] != Names(l)[j] {
      assert RefIndex(refs, l[i].name) < RefIndex(refs, l[j].name);
    }
  }

  /** The listing names exactly the local branches and the `origin/`
      branches other than `HEAD`, each once. */
  lemma ListBranchesNames(repo: Repo)
    ensures ListBranches(repo).Success? ==>
      && NoDuplicates(Names(ListBranches(repo).value))
      && forall x :: x in Names(ListBranches(repo).value) <==>
           x in RefNames(repo.branches) || (("origin/" + x) in RemoteLines(repo) && x != "HEAD")
  {
    var lines := RemoteLines(repo);
    LocalPartSpec(repo);
    RemoteNames(repo, lines, |lines|, LocalPart(repo));
    RemoteAddedFresh(repo, lines, |lines|, LocalPart(repo));
    RemotePrefix(repo, lines, |lines|, LocalPart(repo));
    assert lines[..|lines|] == lines;
    if ListBranches(repo).Success? {
      var r := ListBranches(repo).value;
      var l := LocalPart(repo);
      forall i, j | 0 <= i < j < |r| ensures Names(r)[i] != Names(r)[j] {
        if j < |l| {
          assert r[i] == l[i] && r[j] == l[j];
          assert Names(l)[i] == l[i].name && Names(l)[j] == l[j].name;
        }
      }
    }
  }

  /** The local branches come first, in their order, each as the local
      part describes it. */
  lemma ListBranchesLocalFirst(repo: Repo)
    ensures ListBranches(repo).Success? ==>
      && |LocalPart(repo)| <= |ListBranches(repo).value|
      && ListBranches(repo).value[..|LocalPart(repo)|] == LocalPart(repo)
  {
    RemotePrefix(repo, RemoteLines(repo), |RemoteLines(repo)|, LocalPart(repo));
  }

  /** Every entry after the local ones is a branch only the remote has,
      never current. */
  lemma ListBranchesRemoteAfter(repo: Repo)
    ensures ListBranches(repo).Success? ==>
      forall i :: |LocalPart(repo)| <= i < |ListBranches(repo).value| ==>
        && ListBranches(repo).value[i].name !in RefNames(repo.branches)
        && RemoteEntryOk(repo, ListBranches(repo).value[i])
  {
    var lines := RemoteLines(repo);
    var l := LocalPart(repo);
    RemoteAddedOk(repo, lines, |lines|, l);
    RemoteAddedFresh(repo, lines, |lines|, l);
    RemotePrefix(repo, lines, |lines|, l);
    if ListBranches(repo).Success? {
      var r := ListBranches(repo).value;
      LocalPartSpec(repo);
    }
  }

  /** A repository whose only reference is the remote-tracking branch
      `line`, at commit `c`. */
  function OneRemoteRepo(line: string, c: Commit): Repo {
    Repo([], [], [Ref(line, c)], OnBranch("main"), [])
  }

  /** A one-line remote listing of a name without surrounding whitespace. */
  lemma SingleRemoteLines(line: string, c: Commit)
    requires |line| > 0 && !IsSpace(line[0]) && !IsSpace(line[|line| - 1])
    ensures RemoteLines(OneRemoteRepo(line, c)) == [line]
  {
    StripNoop(line);
    var r := RemoteLines(OneRemoteRepo(line, c));
    assert r[0] == line;
  }

  /** A first line whose as-written name the remote does not have fails
      the listing. */
  lemma AsWrittenMissFails(repo: Repo, line: string)
    requires IsOriginBranch(line)
    requires "origin/" + RemoteBranchNameAsWritten(line) !in RefNames(repo.remotes)
    ensures RemoteStep(repo, [], line, true).Failure?
  {
    assert RemoteBranchNameAsWritten(line) !in Names([]);
  }

  /** A first line naming a remote-tracking branch lists that branch. */
  lemma FirstRemoteListed(repo: Repo, line: string, ref: Ref)
    requires IsOriginBranch(line)
    requires FindRef(repo.remotes, line) == Some(ref)
    ensures RemoteStep(repo, [], line, false)
      == Success([BranchInfo(RemoteBranchName(line), ShortHash(ref.commit.hexsha), false)])
  {
    var b := BranchInfo(RemoteBranchName(line), ShortHash(ref.commit.hexsha), false);
    assert RemoteBranchName(line) !in Names([]);
    assert FindRef(repo.remotes, "origin/" + RemoteBranchName(line)) == Some(ref);
    assert [] + [b] == [b];
  }

  /** A remote branch whose name contains `origin/` breaks the listing as
      written: its line (`origin/team/origin/x` for `t` = `team/` and
      `x` = `x`) is read as a branch the remote does not have, and
      `git rev-parse` of that name fails. The corrected listing shows it. */
  lemma ListBranchesAsWrittenFails(t: string, x: string, c: Commit)
    requires 'o' !in t && 'o' !in x
    requires |x| > 0 && !IsSpace(x[|x| - 1])
    ensures ListBranchesAsWritten(OneRemoteRepo(InnerOriginLine(t, x), c)).Failure?
    ensures ListBranches(OneRemoteRepo(InnerOriginLine(t, x), c))
      == Success([BranchInfo(t + ("origin/" + x), ShortHash(c.hexsha), false)])
  {
    var line := InnerOriginLine(t, x);
    var repo := OneRemoteRepo(line, c);
    ReplaceDropsInnerOrigin(t, x);
    assert line[0] == 'o' && line[|line| - 1] == x[|x| - 1];
    SingleRemoteLines(line, c);
    assert RefNames(repo.remotes) == [line];
    AsWrittenMissFails(repo, line);
    FirstRemoteListed(repo, line, Ref(line, c));
    SingleRemoteListing(repo, line);
  }

  /** The branch `team/origin/x` of the remote. */
  lemma TeamOriginListing(c: Commit)
    ensures ListBranchesAsWritten(OneRemoteRepo(InnerOriginLine("team/", "x"), c)).Failure?
    ensures ListBranches(OneRemoteRepo(InnerOriginLine("team/", "x"), c))
      == Success([BranchInfo("team/" + ("origin/" + "x"), ShortHash(c.hexsha), false)])
  {
    ListBranchesAsWrittenFails("team/", "x", c);
  }

  /** Without local branches and with one remote line, either listing is
      the step for that line. */
  lemma SingleRemoteListing(repo: Repo, line: string)
    requires repo.branches == [] && RemoteLines(repo) == [line]
    ensures ListBranchesAsWritten(repo) == RemoteStep(repo, [], line, true)
    ensures ListBranches(repo) == RemoteStep(repo, [], line, false)
  {
    assert RemoteEntries(repo, [line], 0, [], true) == Success([]);
    assert RemoteEntries(repo, [line], 0, [], false) == Success([]);
  }

  /** `list_tags()`: every tag, in order, with its commit. */
  function ListTags(repo: Repo): (r: seq<VersionInfo>)
    ensures |r| == |repo.tags|
    ensures forall i :: 0 <= i < |r| ==>
      && r[i].branchOrTag == repo.tags[i].name
      && !r[i].isBranch
      && r[i].commitHash == ShortHash(repo.tags[i].commit.hexsha)
      && r[i].commitMessage == FirstLine(repo.tags[i].commit.message)
      && r[i].commitDate == repo.tags[i].commit.date
  {
    seq(|repo.tags|, i requires 0 <= i < |repo.tags| => Describe(repo.tags[i].name, repo.tags[i].commit, false))
  }

  // ---------------------------------------------------------------------
  // Checkout and rollback

  /** What `checkout` decided to check out. */
  datatype CheckoutKind = TagCheckout | BranchCheckout | NewBranch

  /** Python's repr of the reference names, as the not-found message
      shows them. */
  function NameList(refs: seq<Ref>): string {
    Repr(List(StringValues(RefNames(refs))))
  }

  /** The decision `checkout(name, create_branch)` takes: an exact tag
      first, then an exact local branch, then a new branch if asked for.
      Remote-only branches are never considered. */
  function CheckoutPlan(repo: Repo, name: string, createBranch: bool): (r: Result<CheckoutKind, Error>)
    ensures r.Success? <==> name in RefNames(repo.tags) || name in RefNames(repo.branches) || createBranch
    ensures r == Success(TagCheckout) <==> name in RefNames(repo.tags)
    ensures r == Success(BranchCheckout) <==> name !in RefNames(repo.tags) && name in RefNames(repo.branches)
    ensures r == Success(NewBranch) <==>
      name !in RefNames(repo.tags) && name !in RefNames(repo.branches) && createBranch
    ensures r.Failure? ==> r.error == VersionErr(
      "Failed to checkout " + name + ": Branch or tag '" + name + "' not found. Available branches: "
        + NameList(repo.branches) + ", Available tags: " + NameList(repo.tags))
  {
    if name in RefNames(repo.tags) then Success(TagCheckout)
    else if name in RefNames(repo.branches) then Success(BranchCheckout)
    else if createBranch then Success(NewBranch)
    else
      Failure(VersionErr(
        "Failed to checkout " + name + ": Branch or tag '" + name + "' not found. Available branches: "
          + NameList(repo.branches) + ", Available tags: " + NameList(repo.tags)))
  }

  /** `git checkout name` for an existing tag or branch: git prefers a local
      branch of that name; a tag detaches HEAD at its commit. The working
      copy takes the files of the commit. */
  function GitCheckout(repo: Repo, name: string): (r: Repo)
    requires name in RefNames(repo.tags) || name in RefNames(repo.branches)
  {
    if name in RefNames(repo.branches) then
      var c := FindRef(repo.branches, name).value.commit;
      repo.(head := OnBranch(name), files := c.files)
    else
      var c := FindRef(repo.tags, name).value.commit;
      repo.(head := Detached(c), files := c.files)
  }

  /** `git checkout -b name`: a new branch at HEAD's commit (none yet on a
      branch without commits), which HEAD then follows. */
  function GitCheckoutNew(repo: Repo, name: string): (r: Repo) {
    match HeadCommit(repo)
    case None => repo.(head := OnBranch(name))
    case Some(c) => repo.(branches := repo.branches + [Ref(name, c)], head := OnBranch(name))
  }

  /** `checkout(name, create_branch)`, where `gitError` is what git reports
      when it refuses the `git checkout` command the decision runs (local
      changes in the way, say), `None` when git complies. Tags and
      remote-tracking branches never change; a branch is created only when
      asked for and neither a tag nor a branch has the name. */
  function Checkout(repo: Repo, name: string, createBranch: bool, gitError: Option<string>): (r: Result<Repo, Error>)
    ensures r.Success? <==>
      (name in RefNames(repo.tags) || name in RefNames(repo.branches) || createBranch) && gitError.None?
    ensures r.Failure? ==> r.error.VersionErr?
    ensures CheckoutPlan(repo, name, createBranch).Failure? ==>
      r == Failure(CheckoutPlan(repo, name, createBranch).error)
    ensures CheckoutPlan(repo, name, createBranch).Success? && gitError.Some? ==>
      r == Failure(VersionErr("Git checkout failed: " + gitError.value))
    ensures r.Success? ==> r.value.tags == repo.tags && r.value.remotes == repo.remotes
    ensures r.Success? && (name in RefNames(repo.tags) || name in RefNames(repo.branches)) ==>
      r.value.branches == repo.branches
    ensures r.Success? && name in RefNames(repo.branches) ==>
      r.value.head == OnBranch(name) && HeadCommit(r.value) == Some(FindRef(repo.branches, name).value.commit)
      && r.value.files == FindRef(repo.branches, name).value.commit.files
    ensures r.Success? && name in RefNames(repo.tags) && name !in RefNames(repo.branches) ==>
      r.value.head == Detached(FindRef(repo.tags, name).value.commit)
      && r.value.files == FindRef(repo.tags, name).value.commit.files
    ensures r.Success? && name !in RefNames(repo.tags) && name !in RefNames(repo.branches) ==>
      r.value.head == OnBranch(name) && HeadCommit(r.value) == HeadCommit(repo)
      && r.value.files == repo.files
  {
    match CheckoutPlan(repo, name, createBranch)
    case Failure(e) => Failure(e)
    case Success(kind) =>
      if gitError.Some? then Failure(VersionErr("Git checkout failed: " + gitError.value))
      else if kind == NewBranch then
        var r := GitCheckoutNew(repo, name);
        assert HeadCommit(r) == HeadCommit(repo) by {
          if HeadCommit(repo).Some? {
            FindRefAppendAbsent(repo.branches, Ref(name, HeadCommit(repo).value));
          }
        }
        Success(r)
      else Success(GitCheckout(repo, name))
  }

  /** After checking out a branch that has commits, the current version is
      that branch; after checking out a tag that no branch shares, it is a
      tag at the same commit. */
  lemma CheckoutThenCurrentVersion(repo: Repo, name: string, createBranch: bool)
    requires Checkout(repo, name, createBranch, None).Success?
    ensures name in RefNames(repo.branches) ==>
      var c := FindRef(repo.branches, name).value.commit;
      CurrentVersion(Checkout(repo, name, createBranch, None).value) == Success(Describe(name, c, true))
    ensures name in RefNames(repo.tags) && name !in RefNames(repo.branches) ==>
      var c := FindRef(repo.tags, name).value.commit;
      var v := CurrentVersion(Checkout(repo, name, createBranch, None).value);
      && v.Success? && !v.value.isBranch && v.value.commitHash == ShortHash(c.hexsha)
      && v.value.branchOrTag in RefNames(repo.tags)
  {
    if name in RefNames(repo.tags) && name !in RefNames(repo.branches) {
      var c := FindRef(repo.tags, name).value.commit;
      var t := FirstTagAt(repo.tags, c.hexsha);
      assert t.Some? by {
        RefIndexFinds(repo.tags, name);
        var i := RefIndex(repo.tags, name);
        assert repo.tags[i].commit.hexsha == c.hexsha;
      }
      var k :| 0 <= k < |repo.tags| && repo.tags[k] == t.value;
      assert RefNames(repo.tags)[k] == t.value.name;
    }
  }

  /** `rollback(version)`: a checkout that never creates a branch. */
  function Rollback(repo: Repo, version: string, gitError: Option<string>): (r: Result<Repo, Error>)
    ensures r.Success? <==>
      (version in RefNames(repo.tags) || version in RefNames(repo.branches)) && gitError.None?
    ensures r.Success? ==> r.value.branches == repo.branches && r.value.tags == repo.tags
    ensures r == Checkout(repo, version, false, gitError)
  {
    Checkout(repo, version, false, gitError)
  }

  // ---------------------------------------------------------------------
  // Diff

  /** The given version as a list of zero or one revisions. */
  function GivenList(v: Option<string>): (r: seq<string>)
    ensures |r| <= 1
    ensures r != [] <==> Given(v)
  {
    if Given(v) then [v.value] else []
  }

  /** `diff(prompt_path, version1, version2)`: the arguments given to
      `git diff` (its output is git's). The prompt file is `<path>.yaml`,
      else `<path>.yml`, in the working copy. `gitError` is what git
      reports when it refuses the command (an unknown revision, say),
      `None` when it runs. */
  function Diff(repo: Repo, promptPath: string, v1: Option<string>, v2: Option<string>, gitError: Option<string>)
    : (r: Result<seq<string>, Error>)
    ensures r.Failure? <==>
      (promptPath + ".yaml" !in repo.files && promptPath + ".yml" !in repo.files) || gitError.Some?
    ensures promptPath + ".yaml" !in repo.files && promptPath + ".yml" !in repo.files ==>
      r == Failure(VersionErr("Failed to get diff: Prompt file not found: " + promptPath))
    ensures (promptPath + ".yaml" in repo.files || promptPath + ".yml" in repo.files) && gitError.Some? ==>
      r == Failure(VersionErr("Git diff failed: " + gitError.value))
    ensures r.Success? ==> |r.value| >= 3 && r.value[|r.value| - 2] == "--"
    ensures r.Success? ==>
      r.value[|r.value| - 1]
        == (if promptPath + ".yaml" in repo.files then promptPath + ".yaml" else promptPath + ".yml")
    ensures r.Success? ==>
      r.value[..|r.value| - 2]
        == (if Given(v1) || Given(v2) then GivenList(v1) + GivenList(v2) else ["HEAD"])
  {
    var file :=
      if promptPath + ".yaml" in repo.files then promptPath + ".yaml"
      else promptPath + ".yml";
    if file !in repo.files then
      Failure(VersionErr("Failed to get diff: Prompt file not found: " + promptPath))
    else if gitError.Some? then Failure(VersionErr("Git diff failed: " + gitError.value))
    else if Given(v1) && Given(v2) then Success([v1.value, v2.value, "--", file])
    else if Given(v1) then Success([v1.value, "--", file])
    else if Given(v2) then Success([v2.value, "--", file])
    else Success(["HEAD", "--", file])
  }

  /** One revision compares against the working copy whichever argument
      carries it, and empty revisions count as none, so the diff is then
      against HEAD. */
  lemma DiffArguments(repo: Repo, promptPath: string, v: string, gitError: Option<string>)
    ensures Diff(repo, promptPath, Some(v), None, gitError) == Diff(repo, promptPath, None, Some(v), gitError)
    ensures Diff(repo, promptPath, Some(""), Some(""), gitError) == Diff(repo, promptPath, None, None, gitError)
    ensures Diff(repo, promptPath, None, None, gitError).Success? ==>
      Diff(repo, promptPath, None, None, gitError).value[0] == "HEAD"
  {
  }
}
