/** The server's worktree manager: one directory per version under the
    repository's worktree base, created from a tag, a local branch or an
    `origin/` branch; prompt lookup and listing inside a version; and the
    cleanup of directories no active version uses. */
module Worktree {
  import opened Wrappers
  import opened Strings
  import opened Values
  import opened Errors
  import opened Git
  import Paths
  import Prompts

  // ---------------------------------------------------------------------
  // Directory names

  /** `version.replace("/", "_").replace("\\", "_")`: the directory name of
      a version under the worktree base. */
  function SafeVersion(version: string): (r: string)
    ensures |r| == |version|
    ensures '/' !in r && '\\' !in r
    ensures forall i :: 0 <= i < |r| ==>
      r[i] == (if version[i] == '/' || version[i] == '\\' then '_' else version[i])
  {
    ReplaceChar(ReplaceChar(version, '/', '_'), '\\', '_')
  }

  /** `name.replace("_", "/")`: the version cleanup reads a directory name
      as. */
  function ReadBack(name: string): (r: string)
    ensures |r| == |name| && '_' !in r
    ensures forall i :: 0 <= i < |r| ==> r[i] == (if name[i] == '_' then '/' else name[i])
  {
    ReplaceChar(name, '_', '/')
  }

  /** Reading a directory name back gives the version exactly when the
      version has neither `_` nor `\`. */
  lemma ReadBackSafeVersion(version: string)
    ensures ReadBack(SafeVersion(version)) == version <==> '_' !in version && '\\' !in version
  {
    var r := ReadBack(SafeVersion(version));
    if '_' in version {
      assert '_' !in r;
    } else if '\\' in version {
      var i :| 0 <= i < |version| && version[i] == '\\';
      assert r[i] == '/';
    } else {
      assert r == version;
    }
  }

  /** A `/` and an `_` at the same place give the same directory, so the
      two versions share one worktree. */
  lemma SlashAndUnderscoreShare(a: string, b: string)
    ensures SafeVersion(a + "/" + b) == SafeVersion(a + "_" + b)
  {
  }

  // ---------------------------------------------------------------------
  // The manager's state

  /** What sits at a path under the worktree base: a worktree checked out
      at a commit, a directory git cannot open as a repository, or a plain
      file. */
  datatype Entry = Checkout(commit: Commit) | BrokenDir | PlainFile

  predicate IsDir(e: Entry) {
    e.Checkout? || e.BrokenDir?
  }

  /** The main repository, the worktree base directory (the worktree
      directory joined with the repository's name) and the entries under
      it, by name. */
  datatype Manager = Manager(repo: Repo, base: string, entries: map<string, Entry>)

  /** `WorktreeManager(repo_name)`: opens the clone at `repoPath`, which
      `open` gives as a repository unless git cannot open the directory;
      `entries` is what earlier requests left under the base. */
  function Open(repoPath: Paths.Path, base: string, entries: map<string, Entry>, open: Paths.Path -> Option<Repo>)
    : (r: Result<Manager, Error>)
    ensures r.Success? <==> open(repoPath).Some?
    ensures r.Failure? ==> r.error == GitOperation("Not a valid git repository: " + Paths.ToString(repoPath))
    ensures r.Success? ==> r.value.repo == open(repoPath).value && r.value.base == base && r.value.entries == entries
  {
    match open(repoPath)
    case None => Failure(GitOperation("Not a valid git repository: " + Paths.ToString(repoPath)))
    case Some(repo) => Success(Manager(repo, base, entries))
  }

  /** The state after an operation, and its result. */
  datatype Outcome<T> = Outcome(state: Manager, result: Result<T, Error>)

  // ---------------------------------------------------------------------
  // Resolving a version

  /** Where a new worktree comes from. */
  datatype Source = FromTag(commit: Commit) | FromBranch(commit: Commit) | FromRemote

  /** Every version name the repository offers: local branches, `origin/`
      branches, tags. */
  function AvailableVersions(repo: Repo): (r: seq<string>)
    ensures forall x :: x in r <==>
      x in RefNames(repo.branches) || x in OriginBranches(RemoteLines(repo)) || x in RefNames(repo.tags)
  {
    RefNames(repo.branches) + OriginBranches(RemoteLines(repo)) + RefNames(repo.tags)
  }

  /** The list of versions as the error message shows it. */
  function AvailableListing(repo: Repo): string {
    var all := AvailableVersions(repo);
    Repr(List(StringValues(if |all| == 0 then ["(none)"] else all)))
  }

  /** The precedence of `ensure_worktree`: a tag, then a local branch, then
      a branch of `origin`; otherwise the version is unknown. */
  function ResolveVersion(repo: Repo, version: string): (r: Result<Source, Error>)
    ensures r.Success? <==> version in AvailableVersions(repo)
    ensures version in RefNames(repo.tags) ==>
      r == Success(FromTag(FindRef(repo.tags, version).value.commit))
    ensures version !in RefNames(repo.tags) && version in RefNames(repo.branches) ==>
      r == Success(FromBranch(FindRef(repo.branches, version).value.commit))
    ensures r == Success(FromRemote) <==>
      version !in RefNames(repo.tags) && version !in RefNames(repo.branches)
      && version in OriginBranches(RemoteLines(repo))
    ensures r.Failure? ==>
      r.error == GitOperation("Version '" + version + "' not found. Available versions: " + AvailableListing(repo))
  {
    if version in RefNames(repo.tags) then
      Success(FromTag(FindRef(repo.tags, version).value.commit))
    else if version in RefNames(repo.branches) then
      Success(FromBranch(FindRef(repo.branches, version).value.commit))
    else if version in OriginBranches(RemoteLines(repo)) then
      Success(FromRemote)
    else
      Failure(GitOperation("Version '" + version + "' not found. Available versions: " + AvailableListing(repo)))
  }

  /** `git worktree add` failing with `detail`. */
  function AddFailure(version: string, detail: string): Error {
    GitOperation("Failed to create worktree for " + version + ": " + detail)
  }

  /** Creating the worktree of a resolved version at `name`. `addError` is
      what `git worktree add` reports, when it fails (the branch is checked
      out elsewhere, say). A remote branch also becomes a local branch. */
  function AddWorktree(m: Manager, version: string, name: string, source: Source, addError: Option<string>)
    : (o: Outcome<string>)
    ensures o.result.Success? ==> o.result.value == name && name in o.state.entries
    ensures o.result.Success? ==> o.state.entries == m.entries[name := o.state.entries[name]]
    ensures o.result.Failure? ==> o.state == m && o.result.error.GitOperation?
    ensures o.state.repo.tags == m.repo.tags && o.state.repo.remotes == m.repo.remotes
    ensures source.FromTag? || source.FromBranch? ==> o.state.repo == m.repo
    ensures source.FromTag? && o.result.Success? ==> o.state.entries[name] == Checkout(source.commit)
    ensures source.FromBranch? && o.result.Success? ==> o.state.entries[name] == Checkout(source.commit)
  {
    if addError.Some? then Outcome(m, Failure(AddFailure(version, addError.value)))
    else
      match source
      case FromTag(c) => Outcome(m.(entries := m.entries[name := Checkout(c)]), Success(name))
      case FromBranch(c) => Outcome(m.(entries := m.entries[name := Checkout(c)]), Success(name))
      case FromRemote =>
        match FindRef(m.repo.remotes, "origin/" + version)
        case None => Outcome(m, Failure(AddFailure(version, "fatal: invalid reference: origin/" + version)))
        case Some(ref) =>
          var repo := m.repo.(branches := m.repo.branches + [Ref(version, ref.commit)]);
          Outcome(Manager(repo, m.base, m.entries[name := Checkout(ref.commit)]), Success(name))
  }

  /** The error `shutil.rmtree` raises on a plain file at `path`. */
  function NotADirectory(path: string): Error {
    OsError("[Errno 20] Not a directory: '" + path + "'")
  }

  /** `ensure_worktree(version)`: the directory name of the version's
      worktree. An existing worktree is used as it is; a directory git
      cannot open is removed and created again; a plain file in the way
      makes the removal fail. */
  function EnsureWorktree(m: Manager, version: string, addError: Option<string>): (o: Outcome<string>)
    ensures o.result.Success? ==>
      (o.result.value == SafeVersion(version)
       && SafeVersion(version) in o.state.entries && o.state.entries[SafeVersion(version)].Checkout?)
    ensures o.state.repo.tags == m.repo.tags && o.state.repo.remotes == m.repo.remotes
    ensures forall n :: n != SafeVersion(version) ==>
      (n in o.state.entries <==> n in m.entries)
      && (n in m.entries ==> o.state.entries[n] == m.entries[n])
  {
    var name := SafeVersion(version);
    if name in m.entries && m.entries[name].Checkout? then
      Outcome(m, Success(name))
    else if name in m.entries && m.entries[name].PlainFile? then
      Outcome(m, Failure(NotADirectory(m.base + "/" + name)))
    else
      var cleared := m.(entries := m.entries - {name});
      match ResolveVersion(m.repo, version)
      case Failure(e) => Outcome(cleared, Failure(e))
      case Success(source) =>
        var o := AddWorktree(cleared, version, name, source, addError);
        SameElsewhere(m.entries, o.state.entries, name);
        o
  }

  /** Removing the entry at `k` and perhaps setting it again leaves every
      other entry as it was. */
  lemma SameElsewhere(before: map<string, Entry>, after: map<string, Entry>, k: string)
    requires after == before - {k} || (k in after && after == (before - {k})[k := after[k]])
    ensures forall n :: n != k ==> (n in after <==> n in before) && (n in before ==> after[n] == before[n])
  {
  }

  /** A worktree that is already there is returned without looking at the
      repository again: the state does not change. */
  lemma ExistingWorktreeReused(m: Manager, version: string, addError: Option<string>)
    requires SafeVersion(version) in m.entries && m.entries[SafeVersion(version)].Checkout?
    ensures EnsureWorktree(m, version, addError) == Outcome(m, Success(SafeVersion(version)))
  {
  }

  /** Without a directory in the way, the worktree is created exactly when
      the version resolves and git adds it; a tag or a local branch gives a
      worktree at its commit. */
  lemma NewWorktree(m: Manager, version: string, addError: Option<string>)
    requires SafeVersion(version) !in m.entries || m.entries[SafeVersion(version)].BrokenDir?
    ensures var o := EnsureWorktree(m, version, addError);
      && (o.result.Success? ==> version in AvailableVersions(m.repo) && addError.None?)
      && (version !in AvailableVersions(m.repo) ==> o.result == Failure(ResolveVersion(m.repo, version).error))
      && (version in AvailableVersions(m.repo) && addError.Some? ==>
            o.result == Failure(AddFailure(version, addError.value)))
      && (addError.None? && version in RefNames(m.repo.tags) ==>
            o.result.Success?
            && o.state.entries[SafeVersion(version)] == Checkout(FindRef(m.repo.tags, version).value.commit))
      && (addError.None? && version !in RefNames(m.repo.tags) && version in RefNames(m.repo.branches) ==>
            o.result.Success?
            && o.state.entries[SafeVersion(version)] == Checkout(FindRef(m.repo.branches, version).value.commit))
  {
  }

  // ---------------------------------------------------------------------
  // Prompts inside a version

  /** The files of the worktree called `name`. */
  function WorktreeFiles(m: Manager, name: string): seq<string>
    requires name in m.entries && m.entries[name].Checkout?
  {
    m.entries[name].commit.files
  }

  /** The prompt file for `promptPath` among `files`: `.yaml` before
      `.yml`. */
  function PromptFileIn(files: seq<string>, promptPath: string): (r: Option<string>)
    ensures r.Some? <==> promptPath + ".yaml" in files || promptPath + ".yml" in files
    ensures r.Some? ==> r.value in files
    ensures r.Some? ==>
      r.value == promptPath + ".yaml" || (r.value == promptPath + ".yml" && promptPath + ".yaml" !in files)
  {
    if promptPath + ".yaml" in files then Some(promptPath + ".yaml")
    else if promptPath + ".yml" in files then Some(promptPath + ".yml")
    else None
  }

  /** `get_prompt_path(version, prompt_path)`: the worktree and the prompt
      file in it. */
  function GetPromptPath(m: Manager, version: string, promptPath: string, addError: Option<string>)
    : (o: Outcome<(string, string)>)
    ensures var e := EnsureWorktree(m, version, addError);
      && o.state == e.state
      && (e.result.Failure? ==> o.result == Failure(e.result.error))
      && (e.result.Success? ==>
            var files := WorktreeFiles(e.state, e.result.value);
            && (o.result.Success? <==> PromptFileIn(files, promptPath).Some?)
            && (o.result.Success? ==> o.result.value == (SafeVersion(version), PromptFileIn(files, promptPath).value))
            && (o.result.Failure? ==>
                  o.result.error == GitOperation("Prompt not found: " + promptPath + " in version " + version)))
  {
    var e := EnsureWorktree(m, version, addError);
    match e.result
    case Failure(err) => Outcome(e.state, Failure(err))
    case Success(name) =>
      match PromptFileIn(WorktreeFiles(e.state, name), promptPath)
      case Some(f) => Outcome(e.state, Success((name, f)))
      case None => Outcome(e.state, Failure(GitOperation("Prompt not found: " + promptPath + " in version " + version)))
  }

  /** The prompt path of a prompt file: the text before its last `.`. */
  function Stem(f: string): string {
    RSplitHead(f, '.')
  }

  /** A prompt file's stem is its path without the extension. */
  lemma StemOfExtension(p: string, ext: string)
    requires ext == "yaml" || ext == "yml"
    ensures Stem(p + "." + ext) == p
  {
    RSplitHeadOf(p, '.', ext);
  }

  /** The stems of the `*.yaml` files, in walk order. */
  function YamlStems(files: seq<string>): (r: seq<string>)
    ensures forall x :: x in r <==> exists f :: f in files && EndsWith(f, ".yaml") && Stem(f) == x
  {
    if |files| == 0 then []
    else
      var rest := YamlStems(files[1..]);
      assert forall f :: f in files <==> f == files[0] || f in files[1..];
      if EndsWith(files[0], ".yaml") then [Stem(files[0])] + rest else rest
  }

  /** The second walk: the stem of each `*.yml` file not listed yet. */
  function AddYmlStems(prompts: seq<string>, files: seq<string>): (r: seq<string>)
    decreases |files|
    ensures forall x :: x in r <==> x in prompts || exists f :: f in files && EndsWith(f, ".yml") && Stem(f) == x
    ensures NoDuplicates(prompts) ==> NoDuplicates(r)
  {
    if |files| == 0 then prompts
    else
      assert forall f :: f in files <==> f == files[0] || f in files[1..];
      var next := if EndsWith(files[0], ".yml") && Stem(files[0]) !in prompts
        then prompts + [Stem(files[0])] else prompts;
      AddYmlStems(next, files[1..])
  }

  /** The prompts of a file list before sorting. */
  function CollectPrompts(files: seq<string>): seq<string> {
    AddYmlStems(YamlStems(files), files)
  }

  /** Distinct `*.yaml` files have distinct stems. */
  lemma {:induction false} YamlStemsDistinct(files: seq<string>)
    requires NoDuplicates(files)
    ensures NoDuplicates(YamlStems(files))
  {
    if |files| > 0 {
      var f := files[0];
      assert NoDuplicates(files[1..]) by {
        forall i, j | 0 <= i < j < |files[1..]| ensures files[1..][i] != files[1..][j] {
          assert files[1..][i] == files[i + 1] && files[1..][j] == files[j + 1];
        }
      }
      YamlStemsDistinct(files[1..]);
      if EndsWith(f, ".yaml") {
        var rest := YamlStems(files[1..]);
        if Stem(f) in rest {
          var g :| g in files[1..] && EndsWith(g, ".yaml") && Stem(g) == Stem(f);
          YamlFileOfStem(f);
          YamlFileOfStem(g);
        }
        var r := [Stem(f)] + rest;
        forall i, j | 0 <= i < j < |r| ensures r[i] != r[j] {
          if i > 0 {
            assert r[i] == rest[i - 1] && r[j] == rest[j - 1];
          } else {
            assert r[j] in rest;
          }
        }
      }
    }
  }

  /** A `*.yaml` file is its stem with the extension. */
  lemma YamlFileOfStem(f: string)
    requires EndsWith(f, ".yaml")
    ensures f == Stem(f) + ".yaml"
  {
    var p := f[..|f| - 5];
    assert f == p + "." + "yaml";
    StemOfExtension(p, "yaml");
  }

  /** Under a file list without repeats the collected prompts have none, so
      `sorted(prompts)` is the sorted list of their distinct values. */
  lemma CollectPromptsDistinct(files: seq<string>)
    requires NoDuplicates(files)
    ensures NoDuplicates(CollectPrompts(files))
  {
    YamlStemsDistinct(files);
  }

  /** The prompts of a file list, sorted. */
  function PromptNames(files: seq<string>): (r: seq<string>)
    ensures StrictlySorted(r)
    ensures forall x :: x in r <==> exists f :: f in files && Prompts.IsPromptFile(f) && Stem(f) == x
  {
    SortedUnique(CollectPrompts(files))
  }

  /** `list_prompts(version)`: the prompts of the main repository's working
      copy, or of the version's worktree. */
  function ListPrompts(m: Manager, version: Option<string>, addError: Option<string>)
    : (o: Outcome<seq<string>>)
    ensures version.None? ==> o == Outcome(m, Success(PromptNames(m.repo.files)))
    ensures version.Some? ==> o.state == EnsureWorktree(m, version.value, addError).state
    ensures version.Some? ==> (o.result.Success? <==> EnsureWorktree(m, version.value, addError).result.Success?)
    ensures version.Some? && o.result.Success? ==>
      o.result.value == PromptNames(WorktreeFiles(o.state, SafeVersion(version.value)))
  {
    match version
    case None => Outcome(m, Success(PromptNames(m.repo.files)))
    case Some(v) =>
      var e := EnsureWorktree(m, v, addError);
      match e.result
      case Failure(err) => Outcome(e.state, Failure(err))
      case Success(name) => Outcome(e.state, Success(PromptNames(WorktreeFiles(e.state, name))))
  }

  /** A prompt file found for `promptPath` is listed under `promptPath`. */
  lemma PromptFileListed(files: seq<string>, promptPath: string)
    requires PromptFileIn(files, promptPath).Some?
    ensures promptPath in PromptNames(files)
  {
    var file := PromptFileIn(files, promptPath).value;
    if file == promptPath + ".yaml" {
      StemOfExtension(promptPath, "yaml");
      assert promptPath + ".yaml" == promptPath + "." + "yaml";
    } else {
      StemOfExtension(promptPath, "yml");
      assert promptPath + ".yml" == promptPath + "." + "yml";
    }
    assert Prompts.IsPromptFile(file) && Stem(file) == promptPath;
  }

  /** Every prompt `get_prompt_path` finds is among those `list_prompts`
      lists for the same version. */
  lemma FoundPromptIsListed(m: Manager, version: string, promptPath: string, addError: Option<string>)
    requires GetPromptPath(m, version, promptPath, addError).result.Success?
    ensures ListPrompts(m, Some(version), addError).result.Success?
    ensures promptPath in ListPrompts(m, Some(version), addError).result.value
  {
    var e := EnsureWorktree(m, version, addError);
    PromptFileListed(WorktreeFiles(e.state, e.result.value), promptPath);
  }

  // ---------------------------------------------------------------------
  // Cleanup

  /** The directories `cleanup_unused_worktrees(active)` removes as written:
      those whose name, read back, is not an active version. */
  function CleanupAsWritten(m: Manager, active: set<string>): (r: set<string>)
    ensures forall n :: n in r <==> n in m.entries && IsDir(m.entries[n]) && ReadBack(n) !in active
  {
    set n | n in m.entries && IsDir(m.entries[n]) && ReadBack(n) !in active
  }

  /** A version whose name has `_` loses its worktree to the cleanup while
      it is active. */
  lemma CleanupRemovesActiveUnderscore(m: Manager, version: string)
    requires '_' in version
    requires SafeVersion(version) in m.entries && m.entries[SafeVersion(version)].Checkout?
    ensures SafeVersion(version) in CleanupAsWritten(m, {version})
  {
    assert ReadBack(SafeVersion(version)) != version;
  }

  /** A version without `/` or `\` is its own directory name. */
  lemma SafeVersionPlain(version: string)
    requires '/' !in version && '\\' !in version
    ensures SafeVersion(version) == version
  {
  }

  /** The version `my_branch` lives in the directory `my_branch`. */
  lemma MyBranchDirectory()
    ensures SafeVersion("my_branch") == "my_branch"
  {
    SafeVersionPlain("my_branch");
  }

  /** While `my_branch` is active, the cleanup as written removes its
      worktree. */
  lemma MyBranchRemoved(repo: Repo, base: string, c: Commit)
    ensures "my_branch" in CleanupAsWritten(Manager(repo, base, map["my_branch" := Checkout(c)]), {"my_branch"})
  {
    var v := "my_branch";
    assert v[2] == '_';
    MyBranchDirectory();
    CleanupRemovesActiveUnderscore(Manager(repo, base, map[v := Checkout(c)]), v);
  }

  /** The directories the cleanup removes, corrected: those no active
      version's name maps to. */
  function CleanupSelection(m: Manager, active: set<string>): (r: set<string>)
    ensures forall n :: n in r <==>
      n in m.entries && IsDir(m.entries[n]) && forall v :: v in active ==> SafeVersion(v) != n
  {
    set n | n in m.entries && IsDir(m.entries[n]) && forall v :: v in active ==> SafeVersion(v) != n
  }

  /** `cleanup_unused_worktrees(active)`: the selected directories are gone
      (by `git worktree remove`, or by deleting them when that fails). */
  function Cleanup(m: Manager, active: set<string>): (r: Manager)
    ensures r.repo == m.repo
    ensures forall v :: v in active && SafeVersion(v) in m.entries ==>
      SafeVersion(v) in r.entries && r.entries[SafeVersion(v)] == m.entries[SafeVersion(v)]
    ensures forall n :: n in m.entries && !IsDir(m.entries[n]) ==> n in r.entries && r.entries[n] == m.entries[n]
    ensures forall n :: n in r.entries <==> n in m.entries && n !in CleanupSelection(m, active)
    ensures forall n :: n in r.entries ==> r.entries[n] == m.entries[n]
  {
    Manager(m.repo, m.base, m.entries - CleanupSelection(m, active))
  }

  /** Versions without `_` or `\` are read back exactly, so for them the
      cleanup as written and the corrected one agree on every name that is
      some active version's directory. */
  lemma CleanupAgreesOnPlainVersions(m: Manager, active: set<string>, v: string)
    requires v in active && '_' !in v && '\\' !in v
    ensures SafeVersion(v) !in CleanupAsWritten(m, active)
    ensures SafeVersion(v) !in CleanupSelection(m, active)
  {
    ReadBackSafeVersion(v);
  }
}
