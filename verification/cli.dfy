/** The computations of the command line: semantic-version bumping, the
    per-prompt version tag, the prompt file a path names, `--var KEY=VALUE`
    parsing and the choice of the prompts directory. Terminal output,
    confirmations, the editor and git's commit and push are not modelled. */
module Cli {
  import opened Wrappers
  import opened Strings
  import opened Errors
  import opened Git
  import opened Paths
  import Prompts
  import Assoc
  import RepoManager

  // ---------------------------------------------------------------------
  // Semantic versions

  datatype Semver = Semver(major: int, minor: int, patch: int)

  /** `a` comes after `b` in (major, minor, patch) order. */
  predicate Later(a: Semver, b: Semver) {
    || a.major > b.major
    || (a.major == b.major && a.minor > b.minor)
    || (a.major == b.major && a.minor == b.minor && a.patch > b.patch)
  }

  /** The `.`-parts of a version, `1.0.0` standing in for any text that does
      not have exactly three. */
  function VersionParts(version: string): (parts: seq<string>)
    ensures |parts| == 3
  {
    var parts := Split(version, '.');
    if |parts| != 3 then ["1", "0", "0"] else parts
  }

  /** The `ValueError` of `int(part)`. */
  function IntError(part: string): Error {
    ValueErr("invalid literal for int() with base 10: '" + part + "'")
  }

  /** `int(part)`. */
  function IntOf(part: string): (r: Result<int, Error>)
    ensures r.Success? <==> ParseInt(part).Some?
    ensures r.Success? ==> r.value == ParseInt(part).value
    ensures r.Failure? ==> r.error == IntError(part)
  {
    match ParseInt(part)
    case None => Failure(IntError(part))
    case Some(i) => Success(i)
  }

  /** The three integers of a version, read left to right: the first part
      `int()` rejects is the error. */
  function ParseVersion(version: string): (r: Result<Semver, Error>)
    ensures var p := VersionParts(version);
      && (r.Success? <==> ParseInt(p[0]).Some? && ParseInt(p[1]).Some? && ParseInt(p[2]).Some?)
      && (r.Success? ==> r.value == Semver(ParseInt(p[0]).value, ParseInt(p[1]).value, ParseInt(p[2]).value))
      && (r.Failure? ==>
            || (ParseInt(p[0]).None? && r.error == IntError(p[0]))
            || (ParseInt(p[0]).Some? && ParseInt(p[1]).None? && r.error == IntError(p[1]))
            || (ParseInt(p[0]).Some? && ParseInt(p[1]).Some? && r.error == IntError(p[2])))
  {
    var parts := VersionParts(version);
    match IntOf(parts[0])
    case Failure(e) => Failure(e)
    case Success(major) =>
      match IntOf(parts[1])
      case Failure(e) => Failure(e)
      case Success(minor) =>
        match IntOf(parts[2])
        case Failure(e) => Failure(e)
        case Success(patch) => Success(Semver(major, minor, patch))
  }

  /** `f"{major}.{minor}.{patch}"`. */
  function FormatVersion(v: Semver): string {
    IntToString(v.major) + "." + IntToString(v.minor) + "." + IntToString(v.patch)
  }

  /** A version written out splits into its three numbers. */
  lemma FormatSplits(v: Semver)
    ensures Split(FormatVersion(v), '.') == [IntToString(v.major), IntToString(v.minor), IntToString(v.patch)]
  {
    var a, b, c := IntToString(v.major), IntToString(v.minor), IntToString(v.patch);
    assert '.' !in a && '.' !in b && '.' !in c;
    assert FormatVersion(v) == a + ['.'] + (b + ['.'] + c);
    SplitCons(a, '.', b + ['.'] + c);
    SplitCons(b, '.', c);
    SplitNoSep(c, '.');
  }

  /** A version written out is read back as the same three numbers. */
  lemma ParseFormat(v: Semver)
    ensures |Split(FormatVersion(v), '.')| == 3
    ensures ParseVersion(FormatVersion(v)) == Success(v)
  {
    FormatSplits(v);
    var p := VersionParts(FormatVersion(v));
    assert p == [IntToString(v.major), IntToString(v.minor), IntToString(v.patch)];
    IntToStringRoundTrip(v.major);
    IntToStringRoundTrip(v.minor);
    IntToStringRoundTrip(v.patch);
  }

  /** `w` raises the component a bump of `bumpType` raises and keeps the
      components above it. */
  predicate Raises(bumpType: string, v: Semver, w: Semver) {
    if bumpType == "major" then w.major > v.major
    else if bumpType == "minor" then w.major == v.major && w.minor > v.minor
    else w.major == v.major && w.minor == v.minor && w.patch > v.patch
  }

  /** The components below the one a bump of `bumpType` raises hold no
      negative number. */
  predicate ResetsNatural(bumpType: string, w: Semver) {
    if bumpType == "major" then w.minor >= 0 && w.patch >= 0
    else if bumpType == "minor" then w.patch >= 0
    else true
  }

  /** A bump: `major` and `minor` reset what follows them, anything else is a
      patch bump. */
  function BumpSemver(v: Semver, bumpType: string): (w: Semver)
    ensures Later(w, v)
    ensures Raises(bumpType, v, w) && ResetsNatural(bumpType, w)
  {
    if bumpType == "major" then Semver(v.major + 1, 0, 0)
    else if bumpType == "minor" then Semver(v.major, v.minor + 1, 0)
    else Semver(v.major, v.minor, v.patch + 1)
  }

  /** The bump is the least version that raises the bumped component, keeps
      those above it and has natural numbers below it: every other such
      version comes after it. */
  lemma BumpIsNext(v: Semver, bumpType: string, w: Semver)
    requires Raises(bumpType, v, w) && ResetsNatural(bumpType, w)
    ensures w == BumpSemver(v, bumpType) || Later(w, BumpSemver(v, bumpType))
  {
  }

  /** `bump_version(version, bump_type)`. */
  function BumpVersion(version: string, bumpType: string): (r: Result<string, Error>)
    ensures r.Failure? <==> ParseVersion(version).Failure?
    ensures r.Failure? ==> r.error == ParseVersion(version).error
    ensures r.Success? ==> |Split(r.value, '.')| == 3
    ensures r.Success? ==> ParseVersion(r.value) == Success(BumpSemver(ParseVersion(version).value, bumpType))
    ensures r.Success? ==> Later(ParseVersion(r.value).value, ParseVersion(version).value)
    ensures r.Success? ==> r.value == FormatVersion(BumpSemver(ParseVersion(version).value, bumpType))
  {
    match ParseVersion(version)
    case Failure(e) => Failure(e)
    case Success(v) =>
      ParseFormat(BumpSemver(v, bumpType));
      Success(FormatVersion(BumpSemver(v, bumpType)))
  }

  /** Text that is not three `.`-parts is bumped as if it were `1.0.0`. */
  lemma MalformedBumpsFromOne(version: string)
    requires |Split(version, '.')| != 3
    ensures ParseVersion(version) == Success(Semver(1, 0, 0))
  {
    var p := VersionParts(version);
    assert p == ["1", "0", "0"];
    DefaultPartsParse();
    assert IntOf(p[0]) == Success(1) && IntOf(p[1]) == Success(0) && IntOf(p[2]) == Success(0);
  }

  /** The parts of the default version read as numbers. */
  lemma DefaultPartsParse()
    ensures IntOf("1") == Success(1) && IntOf("0") == Success(0)
  {
    IntToStringRoundTrip(1);
    IntToStringRoundTrip(0);
  }

  // ---------------------------------------------------------------------
  // Version tags

  /** The tag of version `version` of a prompt: the path with `/` made `-`,
      then `/v` and the version. */
  function TagName(promptPath: string, version: string): (tag: string)
    ensures |tag| == |promptPath| + 2 + |version|
    ensures && '/' !in tag[..|promptPath|]
            && tag[..|promptPath|] == ReplaceChar(promptPath, '/', '-')
            && tag[|promptPath|..|promptPath| + 2] == "/v"
            && tag[|promptPath| + 2..] == version
  {
    var tag := ReplaceChar(promptPath, '/', '-') + "/v" + version;
    assert tag[..|promptPath|] == ReplaceChar(promptPath, '/', '-');
    tag
  }

  /** The version a tag names: what follows the `/v` after its first `/`. */
  function TagVersion(tag: string): (r: Option<string>)
  {
    var k := IndexOf(tag, '/');
    if k + 2 <= |tag| && tag[k..k + 2] == "/v" then Some(tag[k + 2..]) else None
  }

  /** The version is read back from the tag, whatever it contains. */
  lemma TagVersionOfTagName(promptPath: string, version: string)
    ensures TagVersion(TagName(promptPath, version)) == Some(version)
  {
    var tag := TagName(promptPath, version);
    assert forall j :: 0 <= j < |promptPath| ==> tag[j] == tag[..|promptPath|][j];
    assert tag[|promptPath|] == '/';
  }

  /** Two versions of one prompt never share a tag. */
  lemma TagNameInjective(promptPath: string, v1: string, v2: string)
    requires TagName(promptPath, v1) == TagName(promptPath, v2)
    ensures v1 == v2
  {
    TagVersionOfTagName(promptPath, v1);
    TagVersionOfTagName(promptPath, v2);
  }

  /** Two prompts that differ only in `/` against `-` share every tag:
      `a/b` and `a-b`. */
  lemma SlashAndDashShareTags(a: string, b: string, version: string)
    ensures TagName(a + "/" + b, version) == TagName(a + "-" + b, version)
  {
    var p, q := a + "/" + b, a + "-" + b;
    assert ReplaceChar(p, '/', '-') == ReplaceChar(q, '/', '-');
  }

  /** `prompt add` tags the new prompt at version 1.0.0. */
  function AddTag(promptPath: string): (tag: string)
    ensures TagVersion(tag) == Some("1.0.0")
    ensures |promptPath| <= |tag| && tag[..|promptPath|] == ReplaceChar(promptPath, '/', '-')
  {
    TagVersionOfTagName(promptPath, "1.0.0");
    TagName(promptPath, "1.0.0")
  }

  // ---------------------------------------------------------------------
  // Prompt files

  /** The file `prompt add` creates, relative to the prompts directory:
      `.yaml` is appended unless the path already ends in `.yaml` or `.yml`. */
  function AddFilePath(promptPath: string): (f: string)
    ensures Prompts.IsPromptFile(f)
    ensures StartsWith(f, promptPath)
    ensures f == promptPath <==> Prompts.IsPromptFile(promptPath)
  {
    if Prompts.IsPromptFile(promptPath) then promptPath
    else
      var f := promptPath + ".yaml";
      assert f[|f| - 5..] == ".yaml";
      assert f[..|promptPath|] == promptPath;
      f
  }

  /** The file `prompt edit` and `prompt remove` act on, among the existing
      `files`: `.yaml`, then `.yml`, for a path without either suffix. */
  function FindFile(promptPath: string, files: set<string>): (r: Result<string, Error>)
    ensures r.Success? ==> r.value in files
    ensures Prompts.IsPromptFile(promptPath) ==>
      r == (if promptPath in files then Success(promptPath) else Failure(Abort("Prompt not found: " + promptPath)))
    ensures !Prompts.IsPromptFile(promptPath) ==>
      && (promptPath + ".yaml" in files ==> r == Success(promptPath + ".yaml"))
      && (promptPath + ".yaml" !in files && promptPath + ".yml" in files ==> r == Success(promptPath + ".yml"))
      && (promptPath + ".yaml" !in files && promptPath + ".yml" !in files ==>
            r == Failure(Abort("Prompt not found: " + promptPath)))
  {
    var f :=
      if Prompts.IsPromptFile(promptPath) then promptPath
      else if promptPath + ".yaml" in files then promptPath + ".yaml"
      else promptPath + ".yml";
    if f in files then Success(f) else Failure(Abort("Prompt not found: " + promptPath))
  }

  /** The file `add` creates is the one `edit` and `remove` find. */
  lemma AddedFileFound(promptPath: string, files: set<string>)
    ensures FindFile(promptPath, files + {AddFilePath(promptPath)}) == Success(AddFilePath(promptPath))
  {
  }

  // ---------------------------------------------------------------------
  // --var KEY=VALUE

  function BadVar(v: string): Error {
    Abort("Invalid variable format: " + v + ". Use KEY=VALUE")
  }

  /** The text before the first `=`. */
  function KeyOf(v: string): string
    requires '=' in v
  {
    v[..IndexOf(v, '=')]
  }

  /** The text after the first `=`, which may hold more `=`. */
  function ValueOf(v: string): string
    requires '=' in v
  {
    v[IndexOf(v, '=') + 1..]
  }

  /** `KEY=VALUE` splits into the key and the value when the key has no `=`. */
  lemma KeyValueOf(k: string, value: string)
    requires '=' !in k
    ensures '=' in k + "=" + value
    ensures KeyOf(k + "=" + value) == k && ValueOf(k + "=" + value) == value
  {
    var v := k + "=" + value;
    assert v[|k|] == '=';
    assert forall j :: 0 <= j < |k| ==> v[j] == k[j];
    assert v[..|k|] == k && v[|k| + 1..] == value;
  }

  /** The variables of the `--var` options, in order, later keys
      overriding earlier ones; the first entry without `=` aborts. */
  function ParseVars(vars: seq<string>): (r: Result<Assoc.Table<string>, Error>)
    ensures r.Success? <==> forall i :: 0 <= i < |vars| ==> '=' in vars[i]
    ensures r.Failure? ==>
      (exists i :: 0 <= i < |vars|
        && '=' !in vars[i]
        && (forall j :: 0 <= j < i ==> '=' in vars[j])
        && r.error == BadVar(vars[i]))
    ensures r.Success? ==> Assoc.Distinct(r.value)
    decreases |vars|
  {
    if |vars| == 0 then Success([])
    else
      var init, last := vars[..|vars| - 1], vars[|vars| - 1];
      assert forall i :: 0 <= i < |init| ==> init[i] == vars[i];
      match ParseVars(init)
      case Failure(e) => Failure(e)
      case Success(t) =>
        if '=' !in last then Failure(BadVar(last))
        else Success(Assoc.Put(t, KeyOf(last), ValueOf(last)))
  }

  /** Some `KEY=VALUE` entry of `vars` has the key `k`. */
  predicate HasEntry(vars: seq<string>, k: string) {
    exists i :: 0 <= i < |vars| && '=' in vars[i] && KeyOf(vars[i]) == k
  }

  /** An entry of `vars` is an entry of all but the last, or the last. */
  lemma HasEntrySplit(vars: seq<string>, k: string)
    requires |vars| > 0
    ensures HasEntry(vars, k) <==>
      HasEntry(vars[..|vars| - 1], k) || ('=' in vars[|vars| - 1] && KeyOf(vars[|vars| - 1]) == k)
  {
    var init := vars[..|vars| - 1];
    if HasEntry(vars, k) {
      var i :| 0 <= i < |vars| && '=' in vars[i] && KeyOf(vars[i]) == k;
      if i < |init| {
        assert init[i] == vars[i];
      }
    }
    if HasEntry(init, k) {
      var i :| 0 <= i < |init| && '=' in init[i] && KeyOf(init[i]) == k;
      assert vars[i] == init[i];
    }
  }

  /** The keys are exactly the keys of the entries. */
  lemma {:induction false} ParseVarsKeys(vars: seq<string>, k: string)
    requires ParseVars(vars).Success?
    ensures Assoc.HasKey(ParseVars(vars).value, k) <==> HasEntry(vars, k)
    decreases |vars|
  {
    if |vars| > 0 {
      var init := vars[..|vars| - 1];
      assert forall i :: 0 <= i < |init| ==> init[i] == vars[i];
      ParseVarsKeys(init, k);
      HasEntrySplit(vars, k);
    }
  }

  /** Every key takes the value of its last entry. */
  lemma {:induction false} ParseVarsLastWins(vars: seq<string>, i: int)
    requires ParseVars(vars).Success?
    requires 0 <= i < |vars|
    requires forall j :: i < j < |vars| ==> KeyOf(vars[j]) != KeyOf(vars[i])
    ensures Assoc.Get(ParseVars(vars).value, KeyOf(vars[i])) == Some(ValueOf(vars[i]))
    decreases |vars|
  {
    var init := vars[..|vars| - 1];
    if i < |vars| - 1 {
      assert forall j :: 0 <= j < |init| ==> init[j] == vars[j];
      ParseVarsLastWins(init, i);
    }
  }

  // ---------------------------------------------------------------------
  // The prompts directory

  /** The error of a prompt command with no repository to act on. */
  const NoRepository: Error := Abort("No repository specified.")

  /** `get_prompts_dir`: the repository named by `--repo`, else the default
      repository, else an abort. */
  function PromptsDir(m: RepoManager.Manager, repoName: Option<string>): (r: Result<Path, Error>)
    ensures repoName.Some? && repoName.value != "" ==> r == RepoManager.GetPath(m, repoName.value)
    ensures !(repoName.Some? && repoName.value != "") ==>
      (r == Failure(NoRepository) <==> RepoManager.GetDefaultRepo(m).None?)
    ensures r.Success? ==> r.value in m.existing
  {
    if repoName.Some? && repoName.value != "" then RepoManager.GetPath(m, repoName.value)
    else
      match RepoManager.GetDefaultRepo(m)
      case Some(d) => RepoManager.GetPath(m, d)
      case None => Failure(NoRepository)
  }

  /** After `repo default n` the prompt commands act on `n`'s clone. */
  lemma DefaultRepoUsed(m: RepoManager.Manager, n: string)
    requires n != "" && !IsSpace(n[0]) && !IsSpace(n[|n| - 1])
    requires RepoManager.SetDefaultRepo(m, Some(n)).Success?
    ensures PromptsDir(RepoManager.SetDefaultRepo(m, Some(n)).value, None) == RepoManager.GetPath(m, n)
  {
    RepoManager.SetThenGetDefault(m, Some(n));
  }

  /** `ensure_git_repo`: the repository of the prompts directory, opened by
      `open` (`None` when git does not recognise one there). */
  function EnsureGitRepo(dir: Path, open: Path -> Option<Repo>): (r: Result<Repo, Error>)
    ensures r.Success? <==> open(dir).Some?
    ensures r.Success? ==> r.value == open(dir).value
    ensures r.Failure? ==> r.error == GitOperation("Not a git repository: " + ToString(dir) + ". "
      + "Cached repos should be cloned via 'glueprompt repo add <url>'")
  {
    match open(dir)
    case Some(repo) => Success(repo)
    case None => Failure(GitOperation("Not a git repository: " + ToString(dir) + ". "
      + "Cached repos should be cloned via 'glueprompt repo add <url>'"))
  }
}
