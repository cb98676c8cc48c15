/** The repository manager: prompt repositories cloned into a cache
    directory, recorded by name in a configuration table, and an optional
    default repository kept in a text file. Cloning itself is git's: its
    outcome is a parameter (`None` when it succeeds, the error text when it
    fails). */
module RepoManager {
  import opened Wrappers
  import opened Strings
  import opened Errors
  import opened Git
  import opened Paths
  import Assoc

  // ---------------------------------------------------------------------
  // Repository names from URLs

  /** The characters `rstrip(".git")` removes: a SET, not the suffix. */
  const GitChars: set<char> := {'.', 'g', 'i', 't'}

  /** `url.rstrip("/").rstrip(".git").split("/")[-1]`, as written. */
  function UrlToRepoNameAsWritten(url: string): (r: string)
  {
    LastPart(RStrip(RStrip(url, {'/'}), GitChars), '/')
  }

  /** The name computed as written has no `/` and never ends in one of the
      letters of `.git`. */
  lemma AsWrittenNameShape(url: string)
    ensures '/' !in UrlToRepoNameAsWritten(url)
    ensures |UrlToRepoNameAsWritten(url)| > 0 ==>
      UrlToRepoNameAsWritten(url)[|UrlToRepoNameAsWritten(url)| - 1] !in GitChars
  {
    var s := RStrip(RStrip(url, {'/'}), GitChars);
    var r := LastPart(s, '/');
    if |r| > 0 {
      assert r[|r| - 1] == s[|s| - 1];
    }
  }

  /** So no repository whose name ends in `.`, `g`, `i` or `t` (a
      `widget`, a `toolkit`) is ever named after its URL: the name is cut
      short, `widget.git` giving `widge`. */
  lemma AsWrittenClipsName(url: string, n: string)
    requires |n| > 0 && n[|n| - 1] in GitChars
    ensures UrlToRepoNameAsWritten(url) != n
  {
    AsWrittenNameShape(url);
  }

  /** The HTTPS URL of the `widget` repository does not name it `widget`. */
  lemma WidgetMisnamed()
    ensures UrlToRepoNameAsWritten("https://github.com/acme/widget.git") != "widget"
  {
    AsWrittenClipsName("https://github.com/acme/widget.git", "widget");
  }

  /** The name the URL evidently means: the last path segment, after
      trailing slashes and then one `.git` suffix are removed. */
  function UrlToRepoName(url: string): (r: string)
    ensures '/' !in r
  {
    var s := RStrip(url, {'/'});
    LastPart(if EndsWith(s, ".git") then s[..|s| - 4] else s, '/')
  }

  /** `<base>/<n>.git`, HTTPS or SSH, is named `n`. */
  lemma UrlToRepoNameGit(base: string, n: string)
    requires '/' !in n
    ensures UrlToRepoName(base + "/" + n + ".git") == n
  {
    var url := base + "/" + n + ".git";
    assert RStrip(url, {'/'}) == url;
    assert EndsWith(url, ".git");
    assert url[..|url| - 4] == base + ['/'] + n;
    LastPartAfter(base, '/', n);
  }

  /** `<base>/<n>`, without the suffix, is named `n` as well. */
  lemma UrlToRepoNamePlain(base: string, n: string)
    requires '/' !in n && |n| > 0 && !EndsWith(n, ".git")
    ensures UrlToRepoName(base + "/" + n) == n
  {
    var url := base + "/" + n;
    assert RStrip(url, {'/'}) == url;
    SlashNameNotGit(base, n);
    assert url == base + ['/'] + n;
    LastPartAfter(base, '/', n);
  }

  /** A last segment without the suffix does not give the URL the suffix. */
  lemma SlashNameNotGit(base: string, n: string)
    requires '/' !in n && !EndsWith(n, ".git")
    ensures !EndsWith(base + "/" + n, ".git")
  {
    var url := base + "/" + n;
    if |n| >= 4 {
      assert n[|n| - 4..] == url[|url| - 4..];
    } else if |url| >= 4 {
      assert url[|url| - |n| - 1] == '/';
      assert url[|url| - 4..][4 - |n| - 1] == '/';
    }
  }

  /** The corrected name of the `widget` repository. */
  lemma WidgetNamed()
    ensures UrlToRepoName("https://github.com/acme/widget.git") == "widget"
  {
    var url := "https://github.com/acme/widget.git";
    assert url == "https://github.com/acme" + "/" + "widget" + ".git";
    UrlToRepoNameGit("https://github.com/acme", "widget");
  }

  // ---------------------------------------------------------------------
  // State

  /** A configuration entry: the URL cloned, where the clone lives and the
      branch asked for at clone time. */
  datatype RepoEntry = RepoEntry(url: string, path: Path, defaultBranch: Option<string>)

  /** The cache directory, the configuration table (`repos.json`), the
      content of `default_repo.txt` when it exists, and the paths that exist
      on disk. */
  datatype Manager = Manager(
    cacheDir: Path,
    config: Assoc.Table<RepoEntry>,
    defaultFile: Option<string>,
    existing: set<Path>)

  /** `cache_dir / name`. */
  function RepoPath(m: Manager, name: string): Path {
    JoinPath(m.cacheDir, name)
  }

  function AlreadyExists(name: string, p: Path): Error {
    GitOperation("Repository '" + name + "' already exists at " + ToString(p) + ". "
      + "Use --force to re-clone or 'glueprompt repo remove " + name + "' first.")
  }

  function NotFound(name: string): Error {
    GitOperation("Repository '" + name + "' not found" + ". Use 'glueprompt repo add <url>' to add it.")
  }

  function PathGone(name: string, p: Path): Error {
    GitOperation("Repository '" + name + "' path no longer exists at " + ToString(p) + ". "
      + "Use 'glueprompt repo add <url> --force' to re-clone.")
  }

  // ---------------------------------------------------------------------
  // Operations

  /** `clone(url, name, branch, force)` when git's clone ends with
      `cloneError`. An existing clone is an error unless `force`, which
      deletes it first; a failed clone leaves nothing at the path; a
      successful one is recorded under its name. */
  function Clone(m: Manager, url: string, name: Option<string>, branch: Option<string>, force: bool,
                 cloneError: Option<string>): (out: (Manager, Result<Path, Error>))
    ensures var n := if name.Some? then name.value else UrlToRepoName(url);
      var p := RepoPath(m, n);
      && (p in m.existing && !force ==> out == (m, Failure(AlreadyExists(n, p))))
      && (!(p in m.existing && !force) && cloneError.Some? ==>
            out == (m.(existing := m.existing - {p}),
                    Failure(GitOperation("Failed to clone repository: " + cloneError.value))))
      && (!(p in m.existing && !force) && cloneError.None? ==>
            && out.1 == Success(p)
            && out.0.existing == m.existing + {p}
            && Assoc.Get(out.0.config, n) == Some(RepoEntry(url, p, branch))
            && (forall k :: k != n ==> Assoc.Get(out.0.config, k) == Assoc.Get(m.config, k))
            && out.0.cacheDir == m.cacheDir && out.0.defaultFile == m.defaultFile)
    ensures Assoc.Distinct(m.config) ==> Assoc.Distinct(out.0.config)
  {
    var n := if name.Some? then name.value else UrlToRepoName(url);
    var p := RepoPath(m, n);
    if p in m.existing && !force then (m, Failure(AlreadyExists(n, p)))
    else
      var cleared := m.existing - {p};
      match cloneError
      case Some(e) => (m.(existing := cleared), Failure(GitOperation("Failed to clone repository: " + e)))
      case None =>
        (m.(existing := cleared + {p}, config := Assoc.Put(m.config, n, RepoEntry(url, p, branch))), Success(p))
  }

  /** `remove(name)`: the clone deleted and the entry dropped. */
  function Remove(m: Manager, name: string): (out: Result<Manager, Error>)
    ensures out.Success? <==> Assoc.HasKey(m.config, name)
    ensures out.Failure? ==> out.error == GitOperation("Repository '" + name + "' not found in config")
    ensures out.Success? ==>
      && !Assoc.HasKey(out.value.config, name)
      && (forall k :: k != name ==> Assoc.Get(out.value.config, k) == Assoc.Get(m.config, k))
      && out.value.existing == m.existing - {Assoc.Get(m.config, name).value.path}
      && out.value.defaultFile == m.defaultFile
  {
    match Assoc.Get(m.config, name)
    case None => Failure(GitOperation("Repository '" + name + "' not found in config"))
    case Some(e) =>
      Success(m.(existing := m.existing - {e.path}, config := Assoc.Remove(m.config, name)))
  }

  /** `get_path(name)`: the recorded path, when it still exists. */
  function GetPath(m: Manager, name: string): (out: Result<Path, Error>)
    ensures out.Success? <==>
      Assoc.HasKey(m.config, name) && Assoc.Get(m.config, name).value.path in m.existing
    ensures out.Success? ==> out.value == Assoc.Get(m.config, name).value.path
    ensures !Assoc.HasKey(m.config, name) ==> out == Failure(NotFound(name))
    ensures Assoc.HasKey(m.config, name) && out.Failure? ==>
      out.error == PathGone(name, Assoc.Get(m.config, name).value.path)
  {
    match Assoc.Get(m.config, name)
    case None => Failure(NotFound(name))
    case Some(e) => if e.path in m.existing then Success(e.path) else Failure(PathGone(name, e.path))
  }

  /** A successful clone is found again under its name. */
  lemma CloneThenGetPath(m: Manager, url: string, name: string, branch: Option<string>, force: bool)
    requires Clone(m, url, Some(name), branch, force, None).1.Success?
    ensures GetPath(Clone(m, url, Some(name), branch, force, None).0, name)
      == Clone(m, url, Some(name), branch, force, None).1
  {
  }

  /** A removed repository is no longer known. */
  lemma RemoveThenGetPath(m: Manager, name: string)
    requires Remove(m, name).Success?
    ensures GetPath(Remove(m, name).value, name) == Failure(NotFound(name))
  {
  }

  /** Cloning a new name and removing it again restores the configuration
      of every name. */
  lemma CloneThenRemove(m: Manager, url: string, name: string, branch: Option<string>, force: bool)
    requires !Assoc.HasKey(m.config, name)
    requires Clone(m, url, Some(name), branch, force, None).1.Success?
    ensures Remove(Clone(m, url, Some(name), branch, force, None).0, name).Success?
    ensures forall k ::
      (Assoc.Get(Remove(Clone(m, url, Some(name), branch, force, None).0, name).value.config, k) == Assoc.Get(m.config, k))
  {
  }

  /** A forced re-clone that fails has deleted the old clone but kept its
      entry: the repository is then reported as gone, not as unknown. */
  lemma FailedForceLeavesStaleEntry(m: Manager, url: string, name: string, branch: Option<string>, e: string)
    requires Assoc.HasKey(m.config, name)
    requires Assoc.Get(m.config, name).value.path == RepoPath(m, name)
    ensures GetPath(Clone(m, url, Some(name), branch, true, Some(e)).0, name)
      == Failure(PathGone(name, RepoPath(m, name)))
  {
  }

  // ---------------------------------------------------------------------
  // Listing

  /** One row of `list_repos()`; `branch` is present when the clone exists. */
  datatype RepoInfo = RepoInfo(name: string, url: string, path: string, present: bool, branch: Option<string>)

  /** The branch column of a clone that `open` could (`Some`) or could not
      (`None`) open as a repository. */
  function BranchLabel(handle: Option<Repo>): (r: string)
    ensures handle.None? ==> r == "unknown"
    ensures handle.Some? && handle.value.head.OnBranch? ==> r == handle.value.head.branch
    ensures handle.Some? && handle.value.head.Detached? ==>
      r == "detached (" + ShortHash(handle.value.head.commit.hexsha) + ")"
  {
    match handle
    case None => "unknown"
    case Some(repo) =>
      match repo.head
      case OnBranch(b) => b
      case Detached(c) => "detached (" + ShortHash(c.hexsha) + ")"
  }

  function Info(m: Manager, entry: (string, RepoEntry), open: Path -> Option<Repo>): RepoInfo {
    var present := entry.1.path in m.existing;
    RepoInfo(entry.0, entry.1.url, ToString(entry.1.path), present,
      if present then Some(BranchLabel(open(entry.1.path))) else None)
  }

  /** `list_repos()`: one row per configured repository, in table order. */
  function ListRepos(m: Manager, open: Path -> Option<Repo>): (r: seq<RepoInfo>)
    ensures |r| == |m.config|
    ensures forall i :: 0 <= i < |r| ==>
      && r[i].name == m.config[i].0
      && r[i].url == m.config[i].1.url
      && (r[i].present <==> m.config[i].1.path in m.existing)
      && (r[i].branch.Some? <==> r[i].present)
      && r[i].path == ToString(m.config[i].1.path)
      && (r[i].present ==> r[i].branch == Some(BranchLabel(open(m.config[i].1.path))))
  {
    seq(|m.config|, i requires 0 <= i < |m.config| => Info(m, m.config[i], open))
  }

  /** The listing names exactly the configured repositories. */
  lemma ListReposNames(m: Manager, open: Path -> Option<Repo>, name: string)
    ensures (exists i :: 0 <= i < |ListRepos(m, open)| && ListRepos(m, open)[i].name == name)
      <==> Assoc.HasKey(m.config, name)
  {
    var r := ListRepos(m, open);
    if Assoc.HasKey(m.config, name) {
      var i := Assoc.IndexOfKey(m.config, name);
      assert r[i].name == name;
    }
    if i :| 0 <= i < |r| && r[i].name == name {
      Assoc.HasKeyAt(m.config, i);
    }
  }

  // ---------------------------------------------------------------------
  // The default repository

  /** `get_default_repo()`: the file's stripped content, `None` when the
      file is missing or blank. */
  function GetDefaultRepo(m: Manager): (r: Option<string>)
    ensures m.defaultFile.None? ==> r.None?
    ensures r.Some? ==> r.value != "" && r.value == Strip(m.defaultFile.value)
    ensures m.defaultFile.Some? && Strip(m.defaultFile.value) != "" ==> r.Some?
  {
    match m.defaultFile
    case None => None
    case Some(text) => var s := Strip(text); if s == "" then None else Some(s)
  }

  /** `set_default_repo(name)`: a non-empty name must be configured and is
      written; `None` or the empty name deletes the file. */
  function SetDefaultRepo(m: Manager, name: Option<string>): (out: Result<Manager, Error>)
    ensures out.Failure? <==> name.Some? && name.value != "" && !Assoc.HasKey(m.config, name.value)
    ensures out.Failure? ==> out.error == GitOperation("Repository '" + name.value + "' not found. "
      + "Use 'glueprompt repo add <url>' to add it first.")
    ensures out.Success? ==> out.value == m.(defaultFile := if name.Some? && name.value != "" then name else None)
  {
    if name.Some? && name.value != "" then
      if !Assoc.HasKey(m.config, name.value) then
        Failure(GitOperation("Repository '" + name.value + "' not found. "
          + "Use 'glueprompt repo add <url>' to add it first."))
      else Success(m.(defaultFile := name))
    else Success(m.(defaultFile := None))
  }

  /** The default set is the default read back, for a name without
      surrounding whitespace; clearing it reads back as no default. */
  lemma SetThenGetDefault(m: Manager, name: Option<string>)
    requires SetDefaultRepo(m, name).Success?
    requires name.Some? ==> |name.value| == 0 || (!IsSpace(name.value[0]) && !IsSpace(name.value[|name.value| - 1]))
    ensures GetDefaultRepo(SetDefaultRepo(m, name).value)
      == (if name.Some? && name.value != "" then name else None)
  {
    if name.Some? && name.value != "" {
      StripNoop(name.value);
    }
  }
}
