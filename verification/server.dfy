/** The HTTP server's decisions: which tag a requested prompt version
    names, which status code a failure gets, which version a render
    reports, and which repositories are listed. Reading a prompt from the
    repository or from a version's worktree is a parameter `fetch`: given
    the tag to read (`None` for the repository as checked out), the prompt
    or the error raised on the way. */
module Server {
  import opened Wrappers
  import opened Strings
  import opened Values
  import opened Errors
  import opened Git
  import opened Paths
  import opened ApiModels
  import Prompts
  import Assoc
  import Cli
  import RepoManager
  import Versioning
  import Renderer
  import Worktree
  import Loader
  import Registry

  // ---------------------------------------------------------------------
  // Versions and tags

  /** The tag of version `version` of a prompt, as the endpoints build it. */
  function VersionTag(promptPath: string, version: string): (tag: string)
  {
    ReplaceChar(promptPath, '/', '-') + "/v" + version
  }

  /** The server looks up exactly the tag the command line creates: `prompt
      add` makes version 1.0.0 reachable, `prompt edit` each bumped one. */
  lemma VersionTagIsCliTag(promptPath: string, version: string)
    ensures VersionTag(promptPath, version) == Cli.TagName(promptPath, version)
    ensures VersionTag(promptPath, "1.0.0") == Cli.AddTag(promptPath)
    ensures Cli.TagVersion(VersionTag(promptPath, version)) == Some(version)
  {
    Cli.TagVersionOfTagName(promptPath, version);
  }

  /** What `fetch` is asked for: the version's tag, or the checkout. */
  function FetchRef(promptPath: string, version: Option<string>): (r: Option<string>)
    ensures r.Some? <==> Given(version)
    ensures r.Some? ==> Cli.TagVersion(r.value) == Some(version.value)
  {
    if Given(version) then
      VersionTagIsCliTag(promptPath, version.value);
      Some(VersionTag(promptPath, version.value))
    else None
  }

  // ---------------------------------------------------------------------
  // Status codes

  /** A `get_prompt` failure: 404 when the message says something was not
      found or does not exist, otherwise 500. */
  function GetPromptFailure(msg: string): (r: Http<PromptResponse>)
    ensures r.HttpError?
    ensures r.status == 404 <==> Contains(Lower(msg), "not found") || Contains(Lower(msg), "not exist")
    ensures r.status == 404 ==> r.detail == msg
    ensures r.status != 404 ==> r.status == 500 && r.detail == "Internal server error: " + msg
  {
    if Contains(Lower(msg), "not found") || Contains(Lower(msg), "not exist") then HttpError(404, msg)
    else HttpError(500, "Internal server error: " + msg)
  }

  /** A `render_prompt` failure: 404 when something was not found, else 400
      for a missing variable or a template problem, else 500. */
  function RenderFailure(msg: string): (r: Http<RenderResponse>)
    ensures r.HttpError?
    ensures r.status == 404 <==> Contains(Lower(msg), "not found")
    ensures r.status == 400 <==>
      !Contains(Lower(msg), "not found")
      && (Contains(Lower(msg), "missing required") || Contains(Lower(msg), "template"))
    ensures r.status == 404 || r.status == 400 || r.status == 500
    ensures r.status == 500 ==> r.detail == "Internal server error: " + msg
    ensures r.status != 500 ==> r.detail == msg
  {
    if Contains(Lower(msg), "not found") then HttpError(404, msg)
    else if Contains(Lower(msg), "missing required") || Contains(Lower(msg), "template") then HttpError(400, msg)
    else HttpError(500, "Internal server error: " + msg)
  }

  // ---------------------------------------------------------------------
  // Prompts

  /** The wire form of a variable definition. */
  function EncodeVariable(d: Prompts.VariableDefinition): seq<(string, Value)> {
    [("type", Str(d.varType)), ("required", Bool(d.required)), ("default", d.default), ("description", Str(d.description))]
  }

  function EncodeVariables(vars: Assoc.Table<Prompts.VariableDefinition>): (r: seq<(string, seq<(string, Value)>)>)
    ensures |r| == |vars|
    ensures forall i :: 0 <= i < |vars| ==> r[i] == (vars[i].0, EncodeVariable(vars[i].1))
  {
    if |vars| == 0 then [] else [(vars[0].0, EncodeVariable(vars[0].1))] + EncodeVariables(vars[1..])
  }

  /** The response body of a prompt. */
  function EncodePrompt(p: Prompts.Prompt): PromptResponse {
    PromptResponse(p.metadata, p.template, EncodeVariables(p.variables))
  }

  /** Where `get_prompt` and `render_prompt` read the prompt: with a tag,
      `get_prompt_path` finds the file in that tag's worktree and a fresh
      loader rooted at the worktree loads the file's path without its
      extension; without a tag, a fresh loader rooted at the repository
      loads the prompt path. Both endpoints build the worktree manager
      first, so `wm`, the outcome of `Worktree.Open`, fails the read either
      way. `checkout` is the repository's file system and `worktree(name)`
      the file system and directory of worktree `name`. */
  function ReadPrompt(
    wm: Result<Worktree.Manager, Error>,
    addError: Option<string>,
    checkout: Loader.FileSystem,
    repoPath: Path,
    worktree: string -> (Loader.FileSystem, Path),
    promptPath: string,
    ref: Option<string>
  ): (r: Result<Prompts.Prompt, Error>)
    ensures r.Success? ==> Prompts.WellFormed(r.value)
    ensures wm.Failure? ==> r == Failure(wm.error)
    ensures wm.Success? && ref.None? ==> r == Loader.LoadFresh(checkout, repoPath, promptPath)
    ensures wm.Success? && ref.Some? ==>
      var o := Worktree.GetPromptPath(wm.value, ref.value, promptPath, addError);
      && (o.result.Failure? ==> r == Failure(o.result.error))
      && (o.result.Success? ==>
            && o.result.value.0 == Worktree.SafeVersion(ref.value)
            && r == Loader.LoadFresh(worktree(o.result.value.0).0, worktree(o.result.value.0).1, promptPath))
    ensures wm.Success? && ref.Some? ==>
      var o := Worktree.GetPromptPath(wm.value, ref.value, promptPath, addError);
      (o.result.Success? && Loader.Exists(worktree(o.result.value.0).0, JoinPath(worktree(o.result.value.0).1, o.result.value.1)))
      ==> !(r.Failure? && r.error.PromptNotFound?)
  {
    if wm.Failure? then Failure(wm.error)
    else
      match ref
      case None => Loader.LoadFresh(checkout, repoPath, promptPath)
      case Some(tag) =>
        var o := Worktree.GetPromptPath(wm.value, tag, promptPath, addError);
        match o.result
        case Failure(e) => Failure(e)
        case Success(found) =>
          var fileStem := RSplitHead(found.1, '.');
          StemOfPromptFile(found.1, promptPath);
          Loader.LoadFresh(worktree(found.0).0, worktree(found.0).1, fileStem)
  }

  /** The file `get_prompt_path` finds is the prompt path with a `.yaml` or
      `.yml` extension, so cutting at its last dot gives the prompt path
      back. */
  lemma StemOfPromptFile(file: string, promptPath: string)
    requires file == promptPath + ".yaml" || file == promptPath + ".yml"
    ensures RSplitHead(file, '.') == promptPath
  {
    if file == promptPath + ".yaml" {
      assert file == promptPath + ['.'] + "yaml";
      RSplitHeadOf(promptPath, '.', "yaml");
    } else {
      assert file == promptPath + ['.'] + "yml";
      RSplitHeadOf(promptPath, '.', "yml");
    }
  }

  /** `GET /repos/{repo}/prompts/{prompt_path}?version=`: the repository
      must be configured and present, then the prompt is read at the
      version's tag or from the checkout. */
  function GetPrompt(
    m: RepoManager.Manager,
    repo: string,
    promptPath: string,
    version: Option<string>,
    fetch: Option<string> -> Result<Prompts.Prompt, Error>
  ): (r: Http<PromptResponse>)
    ensures RepoManager.GetPath(m, repo).Failure? ==> r == GetPromptFailure(RepoManager.GetPath(m, repo).error.msg)
    ensures RepoManager.GetPath(m, repo).Success? ==>
      && (fetch(FetchRef(promptPath, version)).Success? ==>
            r == Ok(EncodePrompt(fetch(FetchRef(promptPath, version)).value)))
      && (fetch(FetchRef(promptPath, version)).Failure? ==>
            r == GetPromptFailure(fetch(FetchRef(promptPath, version)).error.msg))
  {
    match RepoManager.GetPath(m, repo)
    case Failure(e) => GetPromptFailure(e.msg)
    case Success(_) =>
      match fetch(FetchRef(promptPath, version))
      case Failure(e) => GetPromptFailure(e.msg)
      case Success(p) => Ok(EncodePrompt(p))
  }

  /** A version whose worktree lacks the prompt is a 404 from both prompt
      endpoints: the worktree manager's message says the prompt was not
      found. */
  lemma VersionWithoutPromptIs404(
    m: RepoManager.Manager,
    repo: string,
    promptPath: string,
    version: Option<string>,
    wm: Worktree.Manager,
    addError: Option<string>,
    checkout: Loader.FileSystem,
    repoPath: Path,
    worktree: string -> (Loader.FileSystem, Path),
    provided: Assoc.Table<Value>,
    current: Result<Versioning.VersionInfo, Error>,
    engine: (string, Assoc.Table<Value>) -> Renderer.EngineOutcome
  )
    requires RepoManager.GetPath(m, repo).Success? && Given(version)
    requires var e := Worktree.EnsureWorktree(wm, FetchRef(promptPath, version).value, addError);
      e.result.Success? && Worktree.PromptFileIn(Worktree.WorktreeFiles(e.state, e.result.value), promptPath).None?
    ensures var fetch := ref => ReadPrompt(Success(wm), addError, checkout, repoPath, worktree, promptPath, ref);
      && GetPrompt(m, repo, promptPath, version, fetch).HttpError?
      && GetPrompt(m, repo, promptPath, version, fetch).status == 404
      && RenderPrompt(m, repo, promptPath, version, provided, fetch, current, engine).HttpError?
      && RenderPrompt(m, repo, promptPath, version, provided, fetch, current, engine).status == 404
  {
    var tag := FetchRef(promptPath, version).value;
    var msg := MissingPromptMessage(promptPath, tag);
    var fetch := ref => ReadPrompt(Success(wm), addError, checkout, repoPath, worktree, promptPath, ref);
    MissingPromptRead(wm, addError, checkout, repoPath, worktree, promptPath, tag);
    assert fetch(FetchRef(promptPath, version)) == Failure(GitOperation(msg));
    assert GetPrompt(m, repo, promptPath, version, fetch) == GetPromptFailure(msg);
    assert RenderPrompt(m, repo, promptPath, version, provided, fetch, current, engine) == RenderFailure(msg);
  }

  /** A configured clone that git cannot open fails `get_prompt` with the
      worktree manager's message, with or without a version, before any
      prompt is read. */
  lemma NonGitCloneFails(
    m: RepoManager.Manager,
    repo: string,
    promptPath: string,
    version: Option<string>,
    base: string,
    entries: map<string, Worktree.Entry>,
    open: Path -> Option<Repo>,
    addError: Option<string>,
    checkout: Loader.FileSystem,
    worktree: string -> (Loader.FileSystem, Path),
    provided: Assoc.Table<Value>,
    current: Result<Versioning.VersionInfo, Error>,
    engine: (string, Assoc.Table<Value>) -> Renderer.EngineOutcome
  )
    requires RepoManager.GetPath(m, repo).Success?
    requires open(RepoManager.GetPath(m, repo).value).None?
    ensures var repoPath := RepoManager.GetPath(m, repo).value;
      var wm := Worktree.Open(repoPath, base, entries, open);
      var fetch := ref => ReadPrompt(wm, addError, checkout, repoPath, worktree, promptPath, ref);
      && GetPrompt(m, repo, promptPath, version, fetch)
           == GetPromptFailure("Not a valid git repository: " + ToString(repoPath))
      && RenderPrompt(m, repo, promptPath, version, provided, fetch, current, engine)
           == RenderFailure("Not a valid git repository: " + ToString(repoPath))
  {
    var repoPath := RepoManager.GetPath(m, repo).value;
    var wm := Worktree.Open(repoPath, base, entries, open);
    var fetch := ref => ReadPrompt(wm, addError, checkout, repoPath, worktree, promptPath, ref);
    assert fetch(FetchRef(promptPath, version)) == Failure(wm.error);
  }

  /** The worktree manager's message for a prompt missing from a version. */
  function MissingPromptMessage(promptPath: string, version: string): string {
    "Prompt not found: " + promptPath + " in version " + version
  }

  /** Reading a prompt missing from a version's worktree fails with the
      worktree manager's message, which says "not found". */
  lemma MissingPromptRead(
    wm: Worktree.Manager,
    addError: Option<string>,
    checkout: Loader.FileSystem,
    repoPath: Path,
    worktree: string -> (Loader.FileSystem, Path),
    promptPath: string,
    tag: string
  )
    requires var e := Worktree.EnsureWorktree(wm, tag, addError);
      e.result.Success? && Worktree.PromptFileIn(Worktree.WorktreeFiles(e.state, e.result.value), promptPath).None?
    ensures ReadPrompt(Success(wm), addError, checkout, repoPath, worktree, promptPath, Some(tag))
      == Failure(GitOperation(MissingPromptMessage(promptPath, tag)))
    ensures Contains(Lower(MissingPromptMessage(promptPath, tag)), "not found")
  {
    var msg := MissingPromptMessage(promptPath, tag);
    assert Worktree.GetPromptPath(wm, tag, promptPath, addError).result == Failure(GitOperation(msg));
    MissingPromptSaysNotFound(promptPath, tag);
  }

  /** The missing-prompt message says "not found" in any case. */
  lemma MissingPromptSaysNotFound(promptPath: string, version: string)
    ensures Contains(Lower(MissingPromptMessage(promptPath, version)), "not found")
  {
    var msg := MissingPromptMessage(promptPath, version);
    assert msg[..16] == "Prompt not found";
    PromptNotFoundWords(msg);
  }

  /** The missing-prompt message says "not found" in any case. */
  lemma PromptNotFoundWords(s: string)
    requires |s| >= 16 && s[..16] == "Prompt not found"
    ensures Contains(Lower(s), "not found")
  {
    NotFoundLetters();
    LoweredPrefixContains(s, "Prompt not found", "not found", 7);
  }

  /** Lower-casing the words of the missing-prompt message. */
  lemma NotFoundLetters()
    ensures forall k :: 0 <= k < |"not found"| ==> LowerChar("Prompt not found"[7 + k]) == "not found"[k]
  {
  }

  /** An unknown repository is a 404: its message says it was not found. */
  lemma UnknownRepoIs404(m: RepoManager.Manager, repo: string, promptPath: string, version: Option<string>,
                         fetch: Option<string> -> Result<Prompts.Prompt, Error>)
    requires !Assoc.HasKey(m.config, repo)
    ensures GetPrompt(m, repo, promptPath, version, fetch).HttpError?
    ensures GetPrompt(m, repo, promptPath, version, fetch).status == 404
  {
    assert RepoManager.GetPath(m, repo) == Failure(RepoManager.NotFound(repo));
    NotFoundSaysSo(repo);
  }

  /** The unknown-repository message says "not found" in any case. */
  lemma NotFoundSaysSo(repo: string)
    ensures Contains(Lower(RepoManager.NotFound(repo).msg), "not found")
  {
    var a, w, b := "Repository '" + repo, "' not found", ". Use 'glueprompt repo add <url>' to add it.";
    assert RepoManager.NotFound(repo).msg == a + w + b;
    NotFoundWord();
    LowerContains(a, w, b);
    ContainsSuffix(Lower(a + w + b), w, "not found");
  }

  /** The words of the unknown-repository message that the status test looks for. */
  lemma NotFoundWord()
    ensures Lower("' not found") == "' not found"
    ensures "' not found"[2..] == "not found"
  {
    LowerKeeps("' not found");
  }

  /** Lower-casing text that has no upper-case letter changes nothing. */
  lemma LowerKeeps(w: string)
    requires forall i :: 0 <= i < |w| ==> !('A' <= w[i] <= 'Z')
    ensures Lower(w) == w
  {
  }

  /** Lower-case text survives lower-casing around it. */
  lemma LowerContains(a: string, w: string, b: string)
    requires Lower(w) == w
    ensures Contains(Lower(a + w + b), w)
  {
    var s := Lower(a + w + b);
    assert forall k :: 0 <= k < |w| ==> s[|a| + k] == LowerChar(w[k]) == Lower(w)[k];
    assert s[|a|..|a| + |w|] == w;
    ContainsAt(s, w, |a|);
  }

  /** Text that contains `w` contains every suffix of `w`. */
  lemma {:induction false} ContainsSuffix(s: string, w: string, v: string)
    requires Contains(s, w) && |v| <= |w| && w[|w| - |v|..] == v
    ensures Contains(s, v)
    decreases |s|
  {
    if StartsWith(s, w) {
      assert s[|w| - |v|..|w|] == v;
      ContainsAt(s, v, |w| - |v|);
    } else {
      ContainsSuffix(s[1..], w, v);
    }
  }

  /** `POST /repos/{repo}/prompts/{prompt_path}/render?version=`: the prompt
      is read as `get_prompt` reads it; without a version the checkout's
      current version is looked up before rendering. */
  function RenderPrompt(
    m: RepoManager.Manager,
    repo: string,
    promptPath: string,
    version: Option<string>,
    provided: Assoc.Table<Value>,
    fetch: Option<string> -> Result<Prompts.Prompt, Error>,
    current: Result<Versioning.VersionInfo, Error>,
    engine: (string, Assoc.Table<Value>) -> Renderer.EngineOutcome
  ): (r: Http<RenderResponse>)
    ensures r.Ok? ==>
      && RepoManager.GetPath(m, repo).Success?
      && fetch(FetchRef(promptPath, version)).Success?
      && (!Given(version) ==> current.Success?)
      && (!Given(version) ==> r.body.version == current.value.branchOrTag)
      && (Given(version) ==> r.body.version == version.value)
      && Renderer.Render(fetch(FetchRef(promptPath, version)).value, provided, engine) == Success(r.body.rendered)
    ensures Given(version) && RepoManager.GetPath(m, repo).Success? && fetch(FetchRef(promptPath, version)).Success? ==>
      (r.Ok? <==> Renderer.Render(fetch(FetchRef(promptPath, version)).value, provided, engine).Success?)
    ensures r.HttpError? ==> r.status == 404 || r.status == 400 || r.status == 500
  {
    match RepoManager.GetPath(m, repo)
    case Failure(e) => RenderFailure(e.msg)
    case Success(_) =>
      match fetch(FetchRef(promptPath, version))
      case Failure(e) => RenderFailure(e.msg)
      case Success(p) =>
        var used: Result<string, Error> :=
          if Given(version) then Success(version.value)
          else if current.Failure? then Failure(current.error)
          else Success(current.value.branchOrTag);
        match used
        case Failure(e) => RenderFailure(e.msg)
        case Success(v) =>
          match Renderer.Render(p, provided, engine)
          case Failure(e) => RenderFailure(e.msg)
          case Success(text) => Ok(RenderResponse(text, v))
  }

  /** Both prompt endpoints read the same prompt: whatever `render_prompt`
      renders, `get_prompt` serves, and the text is the engine's output for
      the served template. */
  lemma RenderUsesServedTemplate(
    m: RepoManager.Manager,
    repo: string,
    promptPath: string,
    version: Option<string>,
    provided: Assoc.Table<Value>,
    fetch: Option<string> -> Result<Prompts.Prompt, Error>,
    current: Result<Versioning.VersionInfo, Error>,
    engine: (string, Assoc.Table<Value>) -> Renderer.EngineOutcome
  )
    ensures var r := RenderPrompt(m, repo, promptPath, version, provided, fetch, current, engine);
      var g := GetPrompt(m, repo, promptPath, version, fetch);
      r.Ok? ==>
        && g.Ok?
        && engine(g.body.template, Renderer.MergedVariables(fetch(FetchRef(promptPath, version)).value, provided))
             == Renderer.Rendered(r.body.rendered)
  {
  }

  /** The library and the server render alike: when the server reads the
      prompt the registry loads and no variable clashes with a parameter of
      the registry's `render`, the registry renders a text exactly when the
      server answers with one, and it is the same text. */
  lemma RegistryRenderAgrees(
    reg: Registry.Registry,
    fs: Loader.FileSystem,
    parse: Registry.Parser,
    now: int,
    m: RepoManager.Manager,
    repo: string,
    promptPath: string,
    version: Option<string>,
    provided: Assoc.Table<Value>,
    fetch: Option<string> -> Result<Prompts.Prompt, Error>,
    current: Result<Versioning.VersionInfo, Error>,
    engine: (string, Assoc.Table<Value>) -> Renderer.EngineOutcome
  )
    requires !Assoc.HasKey(provided, "validate") && Assoc.FirstKeyIn(provided, Registry.RenderParameters).None?
    requires RepoManager.GetPath(m, repo).Success? && (Given(version) || current.Success?)
    requires Registry.Get(reg, fs, promptPath, false, parse, now).0.Success?
    requires fetch(FetchRef(promptPath, version)) == Registry.Get(reg, fs, promptPath, false, parse, now).0
    ensures var lib := Registry.Render(reg, fs, promptPath, false, provided, parse, engine, now).0;
      var r := RenderPrompt(m, repo, promptPath, version, provided, fetch, current, engine);
      && (lib.Success? <==> r.Ok?)
      && (r.Ok? ==> lib == Success(r.body.rendered))
  {
  }

  /** A render variable named like a parameter of the renderer's `render`
      is the caller's mistake: the server answers with a client error that
      carries the `TypeError`'s message, never with an internal error. */
  lemma ParameterNameIsClientError(
    m: RepoManager.Manager,
    repo: string,
    promptPath: string,
    version: Option<string>,
    provided: Assoc.Table<Value>,
    fetch: Option<string> -> Result<Prompts.Prompt, Error>,
    current: Result<Versioning.VersionInfo, Error>,
    engine: (string, Assoc.Table<Value>) -> Renderer.EngineOutcome
  )
    requires RepoManager.GetPath(m, repo).Success? && fetch(FetchRef(promptPath, version)).Success?
    requires Given(version) || current.Success?
    requires Assoc.HasKey(provided, "prompt") || Assoc.HasKey(provided, "self")
    ensures Assoc.FirstKeyIn(provided, Renderer.RenderParameters).Some?
    ensures var r := RenderPrompt(m, repo, promptPath, version, provided, fetch, current, engine);
      && r.HttpError? && (r.status == 400 || r.status == 404)
      && r.detail == Renderer.BoundTwice("TemplateRenderer.render", Assoc.FirstKeyIn(provided, Renderer.RenderParameters).value).msg
  {
    assert Assoc.FirstKeyIn(provided, Renderer.RenderParameters).Some?;
    var x := Assoc.FirstKeyIn(provided, Renderer.RenderParameters).value;
    var e := Renderer.BoundTwice("TemplateRenderer.render", x);
    BoundTwiceMentionsTemplate(x);
    assert Renderer.Render(fetch(FetchRef(promptPath, version)).value, provided, engine) == Failure(e);
    assert RenderPrompt(m, repo, promptPath, version, provided, fetch, current, engine) == RenderFailure(e.msg);
  }

  /** The renderer's TypeError names its class, so it mentions a template. */
  lemma BoundTwiceMentionsTemplate(x: string)
    ensures Contains(Lower(Renderer.BoundTwice("TemplateRenderer.render", x).msg), "template")
  {
    var msg := Renderer.BoundTwice("TemplateRenderer.render", x).msg;
    assert msg[..8] == "Template";
    TemplateWord(msg);
  }

  /** A message that starts with the renderer's class name mentions a template. */
  lemma TemplateWord(s: string)
    requires |s| >= 8 && s[..8] == "Template"
    ensures Contains(Lower(s), "template")
  {
    assert |"Template"| <= |s| && s[..|"Template"|] == "Template";
    assert 0 + |"template"| <= |"Template"|;
    TemplateLetters();
    LoweredPrefixContains(s, "Template", "template", 0);
  }

  /** Lower-casing the class name's first word. */
  lemma TemplateLetters()
    ensures forall k :: 0 <= k < |"template"| ==> LowerChar("Template"[0 + k]) == "template"[k]
  {
  }

  // ---------------------------------------------------------------------
  // Versions and repositories

  function BranchEntry(b: Versioning.BranchInfo): VersionInfoResponse {
    VersionInfoResponse(b.name, b.commitHash, true, b.isCurrent)
  }

  function TagEntry(t: Versioning.VersionInfo): VersionInfoResponse {
    VersionInfoResponse(t.branchOrTag, t.commitHash, false, false)
  }

  /** The version listing of a repository: its branch listing, its tags
      and the name of its current version, failing when either the
      branch listing or the current version does. */
  function VersionsOf(g: Repo): (r: Result<VersionsResponse, Error>)
    ensures r.Success? <==> Versioning.ListBranches(g).Success? && Versioning.CurrentVersion(g).Success?
    ensures r.Success? ==>
      && |r.value.branches| == |Versioning.ListBranches(g).value|
      && (forall i :: 0 <= i < |r.value.branches| ==>
            r.value.branches[i] == BranchEntry(Versioning.ListBranches(g).value[i]))
      && |r.value.tags| == |g.tags|
      && (forall i :: 0 <= i < |r.value.tags| ==>
            && r.value.tags[i].name == g.tags[i].name
            && r.value.tags[i].commitHash == ShortHash(g.tags[i].commit.hexsha)
            && !r.value.tags[i].isBranch)
      && r.value.current == Versioning.CurrentVersion(g).value.branchOrTag
    ensures r.Failure? ==> r.error.VersionErr?
  {
    match Versioning.ListBranches(g)
    case Failure(e) => Failure(e)
    case Success(branches) =>
      var tags := Versioning.ListTags(g);
      match Versioning.CurrentVersion(g)
      case Failure(e) => Failure(e)
      case Success(cur) =>
        Success(VersionsResponse(
          seq(|branches|, i requires 0 <= i < |branches| => BranchEntry(branches[i])),
          seq(|tags|, i requires 0 <= i < |tags| => TagEntry(tags[i])),
          cur.branchOrTag))
  }

  /** `GET /repos/{repo}/versions`: the version listing of the repository's
      checkout, `open` giving the repository at a path; every failure is a
      404 carrying its message. */
  function ListVersions(m: RepoManager.Manager, repo: string, open: Path -> Result<Repo, Error>)
    : (r: Http<VersionsResponse>)
    ensures r.HttpError? ==> r.status == 404
    ensures r.Ok? <==>
      && RepoManager.GetPath(m, repo).Success?
      && open(RepoManager.GetPath(m, repo).value).Success?
      && VersionsOf(open(RepoManager.GetPath(m, repo).value).value).Success?
    ensures r.Ok? ==> r.body == VersionsOf(open(RepoManager.GetPath(m, repo).value).value).value
    ensures !Assoc.HasKey(m.config, repo) ==> r == HttpError(404, RepoManager.NotFound(repo).msg)
  {
    match RepoManager.GetPath(m, repo)
    case Failure(e) => HttpError(404, e.msg)
    case Success(path) =>
      match open(path)
      case Failure(e) => HttpError(404, e.msg)
      case Success(g) =>
        match VersionsOf(g)
        case Failure(e) => HttpError(404, e.msg)
        case Success(body) => Ok(body)
  }

  function ApiRepo(row: RepoManager.RepoInfo): RepoInfo {
    RepoInfo(row.name, row.url, row.path, row.branch)
  }

  /** `GET /repos`: the manager's rows whose clone exists, in order. */
  function ListRepos(rows: seq<RepoManager.RepoInfo>): (r: seq<RepoInfo>)
    ensures |r| <= |rows|
    ensures forall i :: 0 <= i < |rows| && rows[i].present ==> ApiRepo(rows[i]) in r
    ensures forall x :: x in r ==> exists i :: 0 <= i < |rows| && rows[i].present && ApiRepo(rows[i]) == x
  {
    if |rows| == 0 then []
    else
      var rest := ListRepos(rows[1..]);
      assert forall i :: 1 <= i < |rows| ==> rows[i] == rows[1..][i - 1];
      if rows[0].present then [ApiRepo(rows[0])] + rest else rest
  }

  /** Order is kept: the listing of rows `a + b` is the listing of `a`
      followed by that of `b`. */
  lemma {:induction false} ListReposAppend(a: seq<RepoManager.RepoInfo>, b: seq<RepoManager.RepoInfo>)
    ensures ListRepos(a + b) == ListRepos(a) + ListRepos(b)
  {
    if |a| > 0 {
      assert (a + b)[1..] == a[1..] + b;
      ListReposAppend(a[1..], b);
    } else {
      assert a + b == b;
    }
  }

  /** A configured repository is served exactly when its clone exists. */
  lemma ServedRepos(m: RepoManager.Manager, open: Path -> Option<Repo>, i: int)
    requires 0 <= i < |m.config|
    ensures m.config[i].1.path in m.existing ==>
      ApiRepo(RepoManager.ListRepos(m, open)[i]) in ListRepos(RepoManager.ListRepos(m, open))
    ensures m.config[i].1.path !in m.existing ==> !RepoManager.ListRepos(m, open)[i].present
  {
  }
}
