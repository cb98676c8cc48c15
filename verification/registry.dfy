/** The prompt registry: loading with optional validation, rendering and
    validation through the loader, and versioning when the prompts
    directory is a git repository. A version change empties the loader's
    cache. */
module Registry {
  import opened Wrappers
  import opened Values
  import opened Errors
  import opened Prompts
  import opened Git
  import Loader
  import Validator
  import Renderer
  import Versioning
  import Assoc

  /** The registry: the loader, the repository of the prompts directory
      when it is one, and the directory as given. */
  datatype Registry = Registry(loader: Loader.LoaderState, repo: Option<Repo>, dir: string)

  /** What the Jinja2 parser says of a template: `None` when it parses. */
  type Parser = string -> Option<string>

  /** The error of versioning without a repository. */
  function NoVersioning(dir: string): Error {
    VersionErr("Versioning not available: '" + dir + "' is not a git repository. "
      + "Initialize it with 'git init' or use 'glueprompt repo add <url>' to clone a versioned repo.")
  }

  /** `has_versioning`. */
  predicate HasVersioning(r: Registry) {
    r.repo.Some?
  }

  /** The `version_manager` property: the repository, or the error of a
      plain directory. */
  function VersionRepo(r: Registry): (v: Result<Repo, Error>)
    ensures v.Success? <==> HasVersioning(r)
    ensures v.Success? ==> v.value == r.repo.value
    ensures v.Failure? ==> v.error == NoVersioning(r.dir)
  {
    match r.repo
    case None => Failure(NoVersioning(r.dir))
    case Some(repo) => Success(repo)
  }

  // ---------------------------------------------------------------------
  // Prompts

  /** `get(prompt_path, validate)` at time `now`: the prompt the loader
      gives, checked by the validator when asked. */
  function Get(r: Registry, fs: Loader.FileSystem, promptPath: string, validate: bool, parse: Parser, now: int)
    : (out: (Result<Prompt, Error>, Registry))
    ensures var (loaded, loader) := Loader.Load(r.loader, fs, promptPath, true, now);
      && out.1 == r.(loader := loader)
      && (loaded.Failure? ==> out.0 == loaded)
      && (loaded.Success? ==>
            (out.0.Success? <==> !validate || Validator.Valid(loaded.value, parse(loaded.value.template))))
      && (loaded.Success? && out.0.Success? ==> out.0.value == loaded.value)
      && (loaded.Success? && out.0.Failure? ==> out.0.error.PromptValidation?)
  {
    var (loaded, loader) := Loader.Load(r.loader, fs, promptPath, true, now);
    var r' := r.(loader := loader);
    match loaded
    case Failure(e) => (Failure(e), r')
    case Success(p) =>
      if validate then
        match Validator.ValidateAndRaise(p, parse(p.template))
        case Failure(e) => (Failure(e), r')
        case Success(_) => (Success(p), r')
      else (Success(p), r')
  }

  /** The positional parameters of `render` besides `**variables`. */
  const RenderParameters: set<string> := {"self", "prompt_path"}

  /** Passing `validate=` explicitly and again inside `**variables`. */
  const ValidateTwice := TypeErr("PromptRegistry.render() got multiple values for keyword argument 'validate'")

  /** `render(prompt_path, validate=validate, **variables)`, called as the
      command line calls it: the call binds the variables, then `get`, then
      the renderer. */
  function Render(
    r: Registry,
    fs: Loader.FileSystem,
    promptPath: string,
    validate: bool,
    provided: Assoc.Table<Value>,
    parse: Parser,
    engine: (string, Assoc.Table<Value>) -> Renderer.EngineOutcome,
    now: int
  ): (out: (Result<string, Error>, Registry))
    ensures Assoc.HasKey(provided, "validate") ==> out == (Failure(ValidateTwice), r)
    ensures !Assoc.HasKey(provided, "validate") && Assoc.FirstKeyIn(provided, RenderParameters).Some? ==>
      out == (Failure(Renderer.BoundTwice("PromptRegistry.render", Assoc.FirstKeyIn(provided, RenderParameters).value)), r)
    ensures !Assoc.HasKey(provided, "validate") && Assoc.FirstKeyIn(provided, RenderParameters).None? ==>
      && out.1 == Get(r, fs, promptPath, validate, parse, now).1
      && (Get(r, fs, promptPath, validate, parse, now).0.Failure? ==>
            out.0 == Failure(Get(r, fs, promptPath, validate, parse, now).0.error))
      && (Get(r, fs, promptPath, validate, parse, now).0.Success? ==>
            out.0 == Renderer.Render(Get(r, fs, promptPath, validate, parse, now).0.value, provided, engine))
  {
    if Assoc.HasKey(provided, "validate") then (Failure(ValidateTwice), r)
    else
      match Assoc.FirstKeyIn(provided, RenderParameters)
      case Some(x) => (Failure(Renderer.BoundTwice("PromptRegistry.render", x)), r)
      case None =>
        var (got, r') := Get(r, fs, promptPath, validate, parse, now);
        match got
        case Failure(e) => (Failure(e), r')
        case Success(p) => (Renderer.Render(p, provided, engine), r')
  }

  /** `validate(prompt_path)`: the validator's messages for the loaded
      prompt; a loader error propagates. */
  function Validate(r: Registry, fs: Loader.FileSystem, promptPath: string, parse: Parser, now: int)
    : (out: (Result<seq<string>, Error>, Registry))
    ensures var (loaded, loader) := Loader.Load(r.loader, fs, promptPath, true, now);
      && out.1 == r.(loader := loader)
      && (loaded.Failure? ==> out.0 == Failure(loaded.error))
      && (loaded.Success? ==>
            (out.0.Success? && (out.0.value == [] <==> Validator.Valid(loaded.value, parse(loaded.value.template)))))
      && (loaded.Success? ==> out.0 == Success(Validator.Validate(loaded.value, parse(loaded.value.template))))
  {
    var (loaded, loader) := Loader.Load(r.loader, fs, promptPath, true, now);
    match loaded
    case Failure(e) => (Failure(e), r.(loader := loader))
    case Success(p) => (Success(Validator.Validate(p, parse(p.template))), r.(loader := loader))
  }

  /** `get` with validation fails exactly when `validate` reports messages,
      and otherwise returns the same prompt as `get` without it. */
  lemma GetValidatedIffNoMessages(r: Registry, fs: Loader.FileSystem, promptPath: string, parse: Parser, now: int)
    requires Validate(r, fs, promptPath, parse, now).0.Success?
    ensures Get(r, fs, promptPath, true, parse, now).0.Failure?
      <==> Validate(r, fs, promptPath, parse, now).0.value != []
    ensures Get(r, fs, promptPath, true, parse, now).0.Success? ==>
      Get(r, fs, promptPath, true, parse, now).0 == Get(r, fs, promptPath, false, parse, now).0
  {
  }

  /** The renderer's template check and the validator agree: the renderer
      reports a problem exactly when the validator reports a syntax error,
      and its message is one of the validator's. */
  lemma TemplateCheckAgrees(p: Prompt, parseError: Option<string>)
    ensures Renderer.ValidateTemplate(parseError) == [] <==>
      forall d :: Validator.SyntaxError(d) !in Validator.Issues(p, parseError)
    ensures forall m :: m in Renderer.ValidateTemplate(parseError) ==> m in Validator.Validate(p, parseError)
  {
    Validator.PromptIssues(p, parseError);
    if parseError.Some? {
      SyntaxMessageReported(p, parseError.value);
    }
  }

  /** The validator's messages include the syntax error's. */
  lemma SyntaxMessageReported(p: Prompt, detail: string)
    requires Validator.SyntaxError(detail) in Validator.Issues(p, Some(detail))
    ensures "Template syntax error: " + detail in Validator.Validate(p, Some(detail))
  {
    var issues := Validator.Issues(p, Some(detail));
    var i :| 0 <= i < |issues| && issues[i] == Validator.SyntaxError(detail);
    assert Validator.Validate(p, Some(detail))[i] == "Template syntax error: " + detail;
  }

  /** Loading does not need versioning: a registry over a plain directory
      loads, renders and validates as one over a repository does. */
  lemma LoadingWithoutVersioning(r: Registry, fs: Loader.FileSystem, promptPath: string, validate: bool, parse: Parser, now: int)
    ensures Get(r.(repo := None), fs, promptPath, validate, parse, now).0
      == Get(r, fs, promptPath, validate, parse, now).0
    ensures Validate(r.(repo := None), fs, promptPath, parse, now).0
      == Validate(r, fs, promptPath, parse, now).0
  {
  }

  // ---------------------------------------------------------------------
  // Versions

  /** `checkout(branch_or_tag, create_branch)`: the version manager's
      checkout, then the cache emptied. `gitError` is git's refusal of the
      checkout command, if any. */
  function Checkout(r: Registry, name: string, createBranch: bool, gitError: Option<string>)
    : (out: Result<Registry, Error>)
    ensures !HasVersioning(r) ==> out == Failure(NoVersioning(r.dir))
    ensures HasVersioning(r) ==>
      (out.Success? <==> Versioning.Checkout(r.repo.value, name, createBranch, gitError).Success?)
    ensures out.Success? ==>
      && out.value.repo == Some(Versioning.Checkout(r.repo.value, name, createBranch, gitError).value)
      && out.value.loader == r.loader.(cache := map[])
      && out.value.dir == r.dir
    ensures HasVersioning(r) && out.Failure? ==>
      out.error == Versioning.Checkout(r.repo.value, name, createBranch, gitError).error
  {
    match VersionRepo(r)
    case Failure(e) => Failure(e)
    case Success(repo) =>
      match Versioning.Checkout(repo, name, createBranch, gitError)
      case Failure(e) => Failure(e)
      case Success(repo') => Success(Registry(Loader.ClearCache(r.loader), Some(repo'), r.dir))
  }

  /** `rollback(version)`: a checkout that never creates a branch, so it
      also empties the cache. */
  function Rollback(r: Registry, version: string, gitError: Option<string>): (out: Result<Registry, Error>)
    ensures out.Success? ==> out.value.loader.cache == map[]
    ensures HasVersioning(r) ==>
      (out.Success? <==>
        (version in RefNames(r.repo.value.tags) || version in RefNames(r.repo.value.branches)) && gitError.None?)
  {
    Checkout(r, version, false, gitError)
  }

  /** Rollback is checkout without branch creation, through the version
      manager's own rollback. */
  lemma RollbackIsCheckout(r: Registry, version: string, gitError: Option<string>)
    requires HasVersioning(r)
    ensures Rollback(r, version, gitError).Success? <==> Versioning.Rollback(r.repo.value, version, gitError).Success?
    ensures Rollback(r, version, gitError).Success? ==>
      Rollback(r, version, gitError).value.repo == Some(Versioning.Rollback(r.repo.value, version, gitError).value)
    ensures Rollback(r, version, gitError).Failure? ==>
      Rollback(r, version, gitError).error == Versioning.Rollback(r.repo.value, version, gitError).error
  {
  }

  /** After a checkout every prompt is read from the file system again: no
      cached prompt survives a version change. */
  lemma CheckoutRereadsPrompts(
    r: Registry, name: string, createBranch: bool, gitError: Option<string>,
    fs: Loader.FileSystem, promptPath: string, validate: bool, parse: Parser, now: int)
    requires Checkout(r, name, createBranch, gitError).Success?
    ensures var r' := Checkout(r, name, createBranch, gitError).value;
      !Loader.CacheHit(r'.loader, promptPath, true, now)
      && Loader.Load(r'.loader, fs, promptPath, true, now).0 == Loader.LoadFresh(fs, r.loader.dir, promptPath)
  {
  }

  /** `current_version()`. */
  function CurrentVersion(r: Registry): (out: Result<Versioning.VersionInfo, Error>)
    ensures !HasVersioning(r) ==> out == Failure(NoVersioning(r.dir))
    ensures HasVersioning(r) ==> out == Versioning.CurrentVersion(r.repo.value)
  {
    match VersionRepo(r)
    case Failure(e) => Failure(e)
    case Success(repo) => Versioning.CurrentVersion(repo)
  }

  /** `list_versions()`: the branch listing and the tag listing. */
  function ListVersions(r: Registry)
    : (out: Result<(seq<Versioning.BranchInfo>, seq<Versioning.VersionInfo>), Error>)
    ensures !HasVersioning(r) ==> out == Failure(NoVersioning(r.dir))
    ensures HasVersioning(r) ==>
      (out.Success? <==> Versioning.ListBranches(r.repo.value).Success?)
    ensures out.Success? ==>
      out.value == (Versioning.ListBranches(r.repo.value).value, Versioning.ListTags(r.repo.value))
  {
    match VersionRepo(r)
    case Failure(e) => Failure(e)
    case Success(repo) =>
      match Versioning.ListBranches(repo)
      case Failure(e) => Failure(e)
      case Success(branches) => Success((branches, Versioning.ListTags(repo)))
  }

  /** `diff(prompt_path, version1, version2)`: the git arguments of the
      diff (its output is git's); `gitError` is git's refusal, if any. */
  function Diff(r: Registry, promptPath: string, v1: Option<string>, v2: Option<string>, gitError: Option<string>)
    : (out: Result<seq<string>, Error>)
    ensures !HasVersioning(r) ==> out == Failure(NoVersioning(r.dir))
    ensures HasVersioning(r) ==> out == Versioning.Diff(r.repo.value, promptPath, v1, v2, gitError)
  {
    match VersionRepo(r)
    case Failure(e) => Failure(e)
    case Success(repo) => Versioning.Diff(repo, promptPath, v1, v2, gitError)
  }

  /** `clear_cache()`. */
  function ClearCache(r: Registry): (out: Registry)
    ensures out.loader.cache == map[]
    ensures out.repo == r.repo && out.dir == r.dir
  {
    r.(loader := Loader.ClearCache(r.loader))
  }

  /** `invalidate_cache(prompt_path)`. */
  function InvalidateCache(r: Registry, promptPath: Option<string>): (out: Registry)
    ensures out.repo == r.repo && out.dir == r.dir
    ensures out.loader == Loader.InvalidateCache(r.loader, promptPath)
  {
    r.(loader := Loader.InvalidateCache(r.loader, promptPath))
  }
}
