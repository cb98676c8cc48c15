# glue-prompt core, modelled in Dafny

glue-prompt keeps LLM prompts as YAML files in git repositories. A prompt is
metadata, a Jinja2 template and variable definitions. The library loads
prompts through a TTL cache, validates and renders them, and reads versions
from git branches and tags. The command line clones repositories, creates
prompts and bumps their versions, each version tagged per prompt. An HTTP
server serves prompts at a version through git worktrees, and an HTTP client
mirrors the local registry.

This project models that decision logic over plain values:

- git is a `Repo` value: tags, local branches, the lines of
  `git branch -r`, HEAD on a branch or detached, and the working-copy files;
- the file system is a map from resolved locations to parsed documents;
- YAML documents and JSON bodies are a `Value` datatype;
- the Jinja2 parser and engine are function parameters;
- the clock is an integer parameter.

Two modelling choices are worth knowing before reading the tables:

- Each `PromptLoader` owns its cache, keyed by prompts directory and prompt
  path, with no concurrency control; a zero lifetime disables caching
  (`Loader.ZeroTtlNeverHits`).
- `checkout` tests for a tag before a branch, but that test only chooses a
  log line. When a name is both a tag and a local branch, `git checkout`
  switches to the branch. `Versioning.Checkout` models git's effect, and
  `Versioning.CheckoutPlan` models the code's decision.

One module per source component:

| module | file | models |
|---|---|---|
| `Prompts` | prompt.dfy | `models/prompt.py` |
| `Validator` | validator.dfy | `validator.py` |
| `Renderer` | renderer.dfy | `renderer.py` |
| `Differ` | differ.dfy | `differ.py` (metadata comparison) |
| `Loader` | loader.dfy | `loader.py` |
| `Paths` | paths.dfy | the `pathlib` operations the loader needs |
| `Git` | git.dfy | the parts of a repository the code reads |
| `Versioning` | versioning.dfy | `versioning.py` |
| `Registry` | registry.dfy | `registry.py` |
| `Worktree` | worktree.dfy | `server/worktree_manager.py` |
| `RepoManager` | repo_manager.dfy | `repo_manager.py` |
| `Cli` | cli.dfy | the pure rules in `cli/commands.py` |
| `ApiModels` | api_models.dfy | the records of `server/models.py` and an HTTP exchange |
| `Server` | server.dfy | `server/app.py` |
| `Client` | client.dfy | `client.py` |

Supporting modules:

- `Wrappers`: `Option` and `Result`;
- `Assoc`: insertion-ordered dictionaries;
- `Strings`: `split`, `rstrip`, `int()`, `str()` of integers and sorting;
- `Values`: Python values and their truthiness, `str()` and `repr()`;
- `Errors`: the exception classes.

## Model

| member | source | states |
|---|---|---|
| Prompts.NamedMetadata | glueprompt/models/prompt.py:35-39 | Metadata given only a name has version "1.0.0", empty description and author, and no tags |
| Prompts.RequiredVariables | glueprompt/models/prompt.py:57-65 | Lists exactly the declared names whose definition is required, in declaration order (a subsequence of the names), without repeats, and nothing undeclared |
| Prompts.VariableDefaults | glueprompt/models/prompt.py:67-77 | Maps a name to a default exactly when it is declared optional with a non-None default |
| Prompts.RequiredHaveNoDefault | glueprompt/models/prompt.py:57-77 | Required names never appear among the defaults, and every default belongs to a declared variable |
| Validator.ScanFindsEveryMatch | glueprompt/validator.py:115-122 | Resuming each search where the last match ended still finds every base name the pattern matches at any position |
| Validator.TemplateVariablesAreMatches | glueprompt/validator.py:100-128 | The extracted variables are exactly the base names of `{{ ident(.ident)* }}` matches, each an identifier |
| Validator.ReportsPlainUse | glueprompt/validator.py:115-122 | `{{ x }}` reports x wherever it occurs, so a loop or `set` variable used this way is reported as well |
| Validator.ReportsAttributeBase | glueprompt/validator.py:115-122 | `{{ x.attr }}` reports the base x |
| Validator.UndefinedNames | glueprompt/validator.py:61-70 | The undefined names are the template's variables without a definition, sorted and without repeats |
| Validator.DefinitionIssues | glueprompt/validator.py:78-91 | A definition is flagged as required-with-default exactly when it is both, and as invalid type exactly when its type is outside the seven valid ones; each at most once, required-with-default first |
| Validator.VariableIssues | glueprompt/validator.py:78-91 | Each flag is raised exactly for the declared variables whose definition fails that check; every issue names a declared variable; with distinct names no issue repeats |
| Validator.VariableIssuesAppend | glueprompt/validator.py:78-91 | The issues of a concatenation are those of the first part followed by those of the second, so issues follow declaration order |
| Validator.VariableIssuesSingle | glueprompt/validator.py:78-91 | The issues of one variable are its definition's issues, required-with-default before invalid type |
| Validator.VariableIssuesEmpty | glueprompt/validator.py:78-91 | No per-variable error exactly when every definition passes both checks |
| Validator.HeaderIssues | glueprompt/validator.py:51-70 | The prompt-wide errors come in the order name, syntax, undefined |
| Validator.Issues | glueprompt/validator.py:51-91 | Every per-variable error follows every prompt-wide one |
| Validator.PromptIssues | glueprompt/validator.py:51-70 | The name error appears iff the name is empty, the syntax error iff the parser fails, and one undefined-variables error iff some used name is undefined |
| Validator.DefinitionIssuesReported | glueprompt/validator.py:78-91 | The per-variable errors of the whole validation are exactly those of the failing definitions |
| Validator.NoIssuesIffValid | glueprompt/validator.py:33-98 | No issue is found exactly when every check passes |
| Validator.Validate | glueprompt/validator.py:33-98 | One message per issue, in issue order, and the list is empty exactly for a valid prompt |
| Validator.ValidateAndRaise | glueprompt/validator.py:130-143 | Raises a validation error exactly when `validate` reports a message |
| Renderer.MergedVariables | glueprompt/renderer.py:53-55 | A caller's value wins over a default, key by key; other keys keep their default |
| Renderer.Missing | glueprompt/renderer.py:58-60 | The missing names are the required names absent from the merged variables, in the order of the required list |
| Renderer.Render | glueprompt/renderer.py:34-82 | A variable named `self` or `prompt` is the TypeError of binding that parameter twice, naming the first such key; otherwise rendering succeeds exactly when the caller supplies every required name and the engine succeeds, and every failure is a template error |
| Renderer.MissingRequiredReported | glueprompt/renderer.py:54-65 | When no variable is named `self` or `prompt`, a required name the caller omits fails the render by name before the engine runs, whatever the defaults |
| Renderer.MissingFailsRender | glueprompt/renderer.py:54-65 | Any missing required name fails the render; with no parameter-name clash the error lists every missing name, joined by `, ` |
| Renderer.ValidateTemplate | glueprompt/renderer.py:84-101 | Empty when the template parses, otherwise the single syntax-error message |
| Registry.TemplateCheckAgrees | glueprompt/validator.py:55-59 | The renderer's template check is empty exactly when the validator reports no syntax error, and its message is one of the validator's messages |
| Differ.CompareMetadata | glueprompt/differ.py:43-69 | Each field flag holds exactly when that field differs; added and removed are exactly the names declared only in the second or only in the first; changed covers exactly the shared names whose definitions differ under Python's `==` (field by field, `True == 1`, dictionaries regardless of key order), old and new; tags compare as sets |
| Differ.CompareWithItself | glueprompt/differ.py:43-69 | A prompt compared with itself shows no change |
| Differ.CompareSwapped | glueprompt/differ.py:43-69 | Swapping the prompts swaps added with removed and old with new |
| Differ.NoChangeIffSame | glueprompt/differ.py:43-69 | The comparison shows no change exactly when name, version, description and author are equal, the tag sets are equal, both declare the same names and each shared name's definitions are equal under Python's `==` |
| Differ.TrueDefaultMatchesOne | glueprompt/differ.py:66-67 | A definition whose default is `True` is not a change from one whose default is `1`, since Python compares them equal |
| Values.PyEqualReflexive | glueprompt/models/prompt.py:20 | Python's `==` on a default value is reflexive |
| Values.PyEqualSymmetric | glueprompt/models/prompt.py:20 | Python's `==` on a default value is symmetric |
| Values.DictOrderIrrelevant | glueprompt/models/prompt.py:20 | Two dictionaries with the same entries in a different order are equal defaults |
| Prompts.DefinitionEqualLaws | glueprompt/models/prompt.py:8-21 | Definition equality, which compares the four fields with Python's `==`, is reflexive and symmetric |
| Loader.ParseMetadata | glueprompt/loader.py:146-153 | Succeeds exactly when each field, or its default when absent, has the right type; an absent name, version or tags list is `""`, `1.0.0` or empty; each field of the result is the document's value for it, or its default |
| Loader.ParseVariable | glueprompt/loader.py:160-170 | A mapping gives the definition's fields with their defaults, failing exactly when type, required or description has the wrong type; a falsy non-mapping gives the all-default definition; a truthy one is a required variable whose type is its `str()` |
| Loader.ParseVariables | glueprompt/loader.py:160-170 | The variables parse exactly when each entry does, and names stay distinct; with distinct new names, the result is the table followed by each entry's name with its parsed definition, in order |
| Loader.ParseYaml | glueprompt/loader.py:133-179 | A parsed prompt is well formed and has the document's non-empty template; an empty template and every other failure is a validation error with the parse-failure prefix; the metadata is what the metadata parse gives, and the variables are what the `variables` mapping parses to, entry by entry in order |
| Loader.ParseYamlRoundTrip | glueprompt/loader.py:133-179 | A prompt written out as its document parses back to itself |
| Loader.ResolvePromptFile | glueprompt/loader.py:68-131 | The first existing candidate among `.yaml`, `.yml` and `index.yaml` decides: success exactly when it resolves inside the prompts directory, and then it is the result; not found exactly when none exists |
| Loader.PlainPathResolves | glueprompt/loader.py:68-131 | A relative path without `..` that has a `.yaml` file resolves to it and never trips the escape check |
| Loader.ReadPrompt | glueprompt/loader.py:209-236 | A file holding a mapping reads as the parse of that mapping; YAML that does not parse is "Invalid YAML in prompt file: <detail>"; any other document is "Prompt YAML must be a dictionary, got <class '<type>'>"; a directory is an OS error; a failed read is never a not-found error |
| Loader.LoadFresh | glueprompt/loader.py:206-224 | An uncached load is the resolution error, or the read of the resolved file; it yields a well-formed prompt, or not found exactly when no candidate exists |
| Loader.LoadRoundTrip | glueprompt/loader.py:206-224 | A prompt written as the document of `<path>.yaml` under a plain relative path loads back as that prompt |
| Loader.NewLoader | glueprompt/loader.py:25-41 | A new loader starts with an empty cache |
| Loader.Load | glueprompt/loader.py:181-236 | A fresh entry is returned without reading files; otherwise the files are read; only a successful read with caching on stores an entry, stamped now |
| Loader.ZeroTtlNeverHits | glueprompt/loader.py:54-66 | With a zero or negative lifetime and no entry stamped in the future, no load is served from the cache |
| Loader.DisabledCacheUnused | glueprompt/loader.py:197-224 | With caching off every load reads the files and the cache never changes |
| Loader.SecondLoadWithinTtlIsCached | glueprompt/loader.py:197-224 | Within the lifetime a second load returns what the first read, even if the file changed |
| Loader.ExpiredEntryIsReread | glueprompt/loader.py:54-66 | An entry at least as old as the lifetime is not used |
| Loader.ClearCache | glueprompt/loader.py:238-242 | Empties the cache and changes nothing else |
| Loader.InvalidateCache | glueprompt/loader.py:244-258 | Drops exactly one key, every other entry unchanged; `None` empties the cache |
| Loader.InvalidatedPathIsReread | glueprompt/loader.py:244-258 | After invalidating a path, loading it reads the files again |
| Paths.JoinStaysUnder | glueprompt/loader.py:77-87 | Joining a relative path without `..` onto a directory stays inside that directory |
| Git.ShortHash | glueprompt/versioning.py:66 | The reported hash is the first eight characters of the full hash |
| Git.FirstLine | glueprompt/versioning.py:67 | The reported message is the commit message up to its first newline |
| Git.OriginBranches | glueprompt/versioning.py:126-141 | Corrected: the `origin/` branches are exactly the names x with an `origin/x` line, other than HEAD |
| Git.ReplaceDropsInnerOrigin | glueprompt/versioning.py:131 | Deleting every `origin/` renames a branch whose name contains `origin/`; removing the prefix keeps it |
| Versioning.FirstTagAt | glueprompt/versioning.py:59-62 | The first tag in listing order at the commit (no earlier tag points there), or none when no tag points there |
| Versioning.CurrentVersion | glueprompt/versioning.py:45-93 | On a branch: that branch, as a branch. Detached: the first tag at HEAD, else "HEAD", never a branch. Hash, message line and date are the head commit's; a branch with no commit fails |
| Versioning.ListBranches | glueprompt/versioning.py:95-147 | Corrected listing: every failure is a version error with the listing prefix; the rows below state its contents |
| Versioning.ListBranchesAsWritten | glueprompt/versioning.py:95-147 | The listing as written: every failure is a version error with the listing prefix |
| Versioning.LocalPartSpec | glueprompt/versioning.py:110-124 | Local branches are listed once each, in first-occurrence order, with their hash, current exactly when HEAD is on them |
| Versioning.ListBranchesNames | glueprompt/versioning.py:95-147 | The listing names exactly the local branches and the `origin/` branches other than HEAD, each once |
| Versioning.ListBranchesLocalFirst | glueprompt/versioning.py:114-124 | The local branches come first, in order |
| Versioning.ListBranchesRemoteAfter | glueprompt/versioning.py:126-141 | Every later entry is a branch only the remote has, never current, with the remote-tracking hash |
| Versioning.ListBranchesSucceeds | glueprompt/versioning.py:126-141 | When no remote-tracking name carries surrounding whitespace, the listing never fails |
| Versioning.ListBranchesAsWrittenFails | glueprompt/versioning.py:131-133 | The listing as written fails on a remote branch whose name contains `origin/`, which the corrected listing shows |
| Versioning.TeamOriginListing | glueprompt/versioning.py:131-133 | The branch `team/origin/x` breaks the listing as written |
| Versioning.ListTags | glueprompt/versioning.py:149-173 | Every tag in order, as a non-branch version with its commit's short hash, first message line and date |
| Versioning.CheckoutPlan | glueprompt/versioning.py:187-219 | Exact tag first, then exact local branch, then a new branch if asked, else not found listing the branches and tags |
| Versioning.Checkout | glueprompt/versioning.py:175-225 | Succeeds exactly when the name is a tag or a local branch or creation is asked, and git's checkout succeeds; a git failure is `Git checkout failed: <error>`; tags and remotes never change; HEAD ends on the branch, at the tag or on the new branch; the working copy holds the checked-out commit's files, or is unchanged for a new branch |
| Versioning.CheckoutThenCurrentVersion | glueprompt/versioning.py:45-93 | After checking out a branch the current version is that branch at its commit; after a tag it is a tag with that commit's short hash |
| Versioning.Rollback | glueprompt/versioning.py:278-287 | Rollback is checkout without branch creation, so it succeeds exactly for existing tags and branches when git's checkout succeeds |
| Versioning.GivenList | glueprompt/versioning.py:259-267 | A version argument counts only when present and non-empty |
| Versioning.Diff | glueprompt/versioning.py:227-276 | Fails exactly when neither `<p>.yaml` nor `<p>.yml` exists (not found) or git fails (`Git diff failed: <error>`); the revisions are the given versions, or HEAD when none is given |
| Versioning.DiffArguments | glueprompt/versioning.py:259-267 | One version compares it with the working copy whichever argument carries it; empty versions count as absent; with none the diff starts at HEAD |
| Registry.VersionRepo | glueprompt/registry.py:67-80 | Versioning is available exactly for a git directory, and otherwise is a version error |
| Registry.Get | glueprompt/registry.py:82-101 | With validation on, fails exactly when the loaded prompt is invalid; otherwise returns the loaded prompt unchanged; loader errors propagate |
| Registry.Render | glueprompt/registry.py:103-125 | Called as the command line calls it: a `validate` variable is the TypeError of a repeated keyword and a `self` or `prompt_path` variable that of a parameter bound twice, before any load and with the registry unchanged; otherwise the renderer applied to the prompt `get` returns, with the same validation flag |
| Registry.Validate | glueprompt/registry.py:127-140 | Exactly the validator's messages for the loaded prompt and its parse verdict, empty exactly for a valid prompt; loader errors propagate |
| Registry.GetValidatedIffNoMessages | glueprompt/registry.py:82-140 | Validated `get` fails exactly when `validate` reports messages, and otherwise equals unvalidated `get` |
| Registry.LoadingWithoutVersioning | glueprompt/registry.py:59-65 | Loading and validating behave the same without versioning |
| Registry.Checkout | glueprompt/registry.py:142-154 | Delegates with the same flag and git outcome, then empties the loader cache; failures propagate |
| Registry.Rollback | glueprompt/registry.py:196-205 | Succeeds exactly for an existing tag or branch when git's checkout succeeds, and empties the cache |
| Registry.RollbackIsCheckout | glueprompt/registry.py:196-205 | Registry rollback agrees with the version manager's rollback, error for error |
| Registry.CheckoutRereadsPrompts | glueprompt/registry.py:152-154 | After a checkout no prompt comes from the cache |
| Registry.CurrentVersion | glueprompt/registry.py:156-162 | The version manager's current version, or the no-versioning error |
| Registry.ListVersions | glueprompt/registry.py:164-173 | The branch and tag listings, failing when the branch listing does |
| Registry.Diff | glueprompt/registry.py:175-194 | The version manager's diff, or the no-versioning error |
| Registry.ClearCache | glueprompt/registry.py:207-209 | Empties the cache, keeping the repository |
| Registry.InvalidateCache | glueprompt/registry.py:211-217 | The loader's invalidation, keeping the repository |
| Worktree.Open | glueprompt/server/worktree_manager.py:33-56 | The manager exists exactly when git opens the clone, over the given base and entries; otherwise "Not a valid git repository: <path>" |
| Worktree.SafeVersion | glueprompt/server/worktree_manager.py:58-69 | The directory name has the version's length, with each `/` and `\` turned into `_`, so it contains neither |
| Worktree.ReadBack | glueprompt/server/worktree_manager.py:225 | Cleanup reads each `_` of a directory name as `/` |
| Worktree.ReadBackSafeVersion | glueprompt/server/worktree_manager.py:225 | Reading back inverts the sanitising exactly for versions with no `_` and no `\` |
| Worktree.SlashAndUnderscoreShare | glueprompt/server/worktree_manager.py:68 | `a/b` and `a_b` share one worktree directory |
| Worktree.AvailableVersions | glueprompt/server/worktree_manager.py:108-125 | The offered versions are the local branches, the `origin/` branches and the tags |
| Worktree.ResolveVersion | glueprompt/server/worktree_manager.py:127-150 | Tag (at its commit), then local branch, then `origin/` branch; not found exactly when none offers the version |
| Worktree.AddWorktree | glueprompt/server/worktree_manager.py:127-156 | A tag or local branch gives a worktree at its commit; a failed `git worktree add` is a git error and changes nothing |
| Worktree.EnsureWorktree | glueprompt/server/worktree_manager.py:71-156 | A successful result is the version's directory, holding a checkout; no other directory changes |
| Worktree.ExistingWorktreeReused | glueprompt/server/worktree_manager.py:86-92 | An existing worktree is returned without resolving the version again |
| Worktree.NewWorktree | glueprompt/server/worktree_manager.py:98-156 | Without a usable worktree, creation succeeds exactly when the version resolves and git adds it |
| Worktree.PromptFileIn | glueprompt/server/worktree_manager.py:173-182 | `.yaml` before `.yml`; none exactly when neither file exists |
| Worktree.GetPromptPath | glueprompt/server/worktree_manager.py:158-182 | The version's worktree and the prompt file in it, else the worktree error or prompt not found |
| Worktree.YamlStems | glueprompt/server/worktree_manager.py:196-199 | The stems of exactly the `*.yaml` files |
| Worktree.AddYmlStems | glueprompt/server/worktree_manager.py:201-205 | Adds the stem of each `*.yml` file not yet listed, keeping the list free of repeats |
| Worktree.CollectPromptsDistinct | glueprompt/server/worktree_manager.py:193-207 | The collected prompt paths have no repeats |
| Worktree.PromptNames | glueprompt/server/worktree_manager.py:193-207 | Sorted, without repeats, exactly the stems of the prompt files |
| Worktree.ListPrompts | glueprompt/server/worktree_manager.py:184-207 | The prompts of the main checkout, or of the version's worktree once ensured |
| Worktree.FoundPromptIsListed | glueprompt/server/worktree_manager.py:158-207 | Every prompt `get_prompt_path` finds is in `list_prompts` for that version |
| Worktree.CleanupAsWritten | glueprompt/server/worktree_manager.py:221-226 | As written, cleanup selects exactly the directories whose read-back name is not active |
| Worktree.CleanupRemovesActiveUnderscore | glueprompt/server/worktree_manager.py:225-226 | An active version containing `_` loses its worktree |
| Worktree.MyBranchRemoved | glueprompt/server/worktree_manager.py:225-226 | The active version `my_branch` loses its worktree |
| Worktree.CleanupSelection | glueprompt/server/worktree_manager.py:209-236 | Corrected: the directories that are no active version's directory; plain files are skipped |
| Worktree.Cleanup | glueprompt/server/worktree_manager.py:209-236 | Corrected: every active version's worktree and every non-directory survives; nothing else changes |
| Worktree.CleanupAgreesOnPlainVersions | glueprompt/server/worktree_manager.py:225-226 | For versions without `_` or `\` both selections keep the worktree |
| RepoManager.AsWrittenNameShape | glueprompt/repo_manager.py:115 | As written, the name has no `/` and never ends in `.`, `g`, `i` or `t` |
| RepoManager.AsWrittenClipsName | glueprompt/repo_manager.py:115 | As written, no URL yields a name ending in one of those letters |
| RepoManager.WidgetMisnamed | glueprompt/repo_manager.py:115 | As written, `…/widget.git` is not named `widget` |
| RepoManager.UrlToRepoName | glueprompt/repo_manager.py:105-116 | Corrected: a name without `/`; the next two rows give its value |
| RepoManager.UrlToRepoNameGit | glueprompt/repo_manager.py:105-116 | `<base>/<n>.git` is named n |
| RepoManager.UrlToRepoNamePlain | glueprompt/repo_manager.py:105-116 | `<base>/<n>` without the suffix is named n |
| Strings.LastPartIsLastOfSplit | glueprompt/repo_manager.py:115 | The text after the last `/` is exactly the last element of `split("/")`, which is the part the name is taken from |
| RepoManager.WidgetNamed | glueprompt/repo_manager.py:105-116 | Corrected, `…/widget.git` is named `widget` |
| RepoManager.Clone | glueprompt/repo_manager.py:127-202 | Existing path without force: an error, nothing changes. Failed clone: nothing left at the path. Success: the entry is recorded, other entries untouched |
| RepoManager.Remove | glueprompt/repo_manager.py:204-226 | Unknown name: an error. Otherwise exactly that entry and its clone go |
| RepoManager.GetPath | glueprompt/repo_manager.py:229-254 | The stored path when recorded and present; unknown and gone are distinct errors |
| RepoManager.CloneThenGetPath | glueprompt/repo_manager.py:127-254 | A successful clone is found again under its name |
| RepoManager.RemoveThenGetPath | glueprompt/repo_manager.py:204-254 | A removed repository is unknown |
| RepoManager.CloneThenRemove | glueprompt/repo_manager.py:127-226 | Cloning a new name and removing it restores the configuration |
| RepoManager.FailedForceLeavesStaleEntry | glueprompt/repo_manager.py:156-202 | A failed forced re-clone deletes the old clone but keeps its entry, so the repository reads as gone |
| RepoManager.BranchLabel | glueprompt/repo_manager.py:274-283 | The branch name, `detached (<short hash>)`, or `unknown` when git cannot open the clone |
| RepoManager.ListRepos | glueprompt/repo_manager.py:256-287 | One row per configured repository, in order, present exactly when its clone exists, with its path as text and, exactly when present, the branch label of the opened clone |
| RepoManager.ListReposNames | glueprompt/repo_manager.py:256-287 | The listing names exactly the configured repositories |
| RepoManager.GetDefaultRepo | glueprompt/repo_manager.py:55-64 | The stripped file content, or none when the file is missing or blank |
| RepoManager.SetDefaultRepo | glueprompt/repo_manager.py:67-77 | A non-empty name must be configured and is stored; none or empty clears the default |
| RepoManager.SetThenGetDefault | glueprompt/repo_manager.py:55-77 | The default set is the default read back |
| Cli.IntOf | glueprompt/cli/commands.py:57 | `int()` of a part, or its ValueError |
| Cli.ParseVersion | glueprompt/cli/commands.py:53-57 | Three integers, or the error of the first part `int()` rejects |
| Cli.ParseFormat | glueprompt/cli/commands.py:57-69 | A version written out parses back to the same numbers |
| Cli.BumpSemver | glueprompt/cli/commands.py:59-68 | Major gives (M+1).0.0, minor M.(m+1).0, anything else M.m.(p+1); the result is later |
| Cli.BumpIsNext | glueprompt/cli/commands.py:59-68 | The bump is the least later version raising that component, as in items 6-8 of Semantic Versioning 2.0.0 |
| Cli.BumpVersion | glueprompt/cli/commands.py:43-69 | Fails exactly when a part is not an integer; otherwise the bumped version written as `major.minor.patch`, three parts, strictly later |
| Cli.MalformedBumpsFromOne | glueprompt/cli/commands.py:53-55 | Malformed text is bumped from 1.0.0 |
| Cli.TagName | glueprompt/cli/commands.py:511-512 | The path with `/` made `-`, then `/v`, then the version |
| Cli.TagVersionOfTagName | glueprompt/cli/commands.py:511-512 | The version reads back from its tag |
| Cli.TagNameInjective | glueprompt/cli/commands.py:511-512 | Two versions of one prompt never share a tag |
| Cli.SlashAndDashShareTags | glueprompt/cli/commands.py:442 | The prompts `a/b` and `a-b` share tags |
| Cli.AddTag | glueprompt/cli/commands.py:442-443 | `prompt add` tags version 1.0.0 |
| Cli.AddFilePath | glueprompt/cli/commands.py:396-399 | `.yaml` is appended unless the path already is a prompt file |
| Cli.FindFile | glueprompt/cli/commands.py:476-485 | `.yaml`, then `.yml`, else prompt not found |
| Cli.AddedFileFound | glueprompt/cli/commands.py:476-485 | The file `add` creates is the one `edit` and `remove` find |
| Cli.KeyValueOf | glueprompt/cli/commands.py:595 | The split is at the first `=`, so values may contain `=` |
| Cli.ParseVars | glueprompt/cli/commands.py:591-596 | Succeeds exactly when every entry has `=`; otherwise aborts on the first without one |
| Cli.ParseVarsKeys | glueprompt/cli/commands.py:591-596 | The keys are exactly the entries' keys |
| Cli.ParseVarsLastWins | glueprompt/cli/commands.py:596 | Each key takes the value of its last entry |
| Cli.PromptsDir | glueprompt/cli/commands.py:278-300 | `--repo` first, then the default repository, else an abort |
| Cli.DefaultRepoUsed | glueprompt/cli/commands.py:287-295 | After `repo default n` the prompt commands use n's clone |
| Cli.EnsureGitRepo | glueprompt/cli/commands.py:20-40 | The repository, or the not-a-repository error |
| Server.VersionTagIsCliTag | glueprompt/server/app.py:151-155 | The server looks up exactly the tag the command line creates |
| Server.FetchRef | glueprompt/server/app.py:151-169 | A given version reads at its tag; otherwise the checkout is read |
| Server.ReadPrompt | glueprompt/server/app.py:147-169 | A worktree manager that could not be built fails the read, with or without a tag; with a tag: the worktree error, or the fresh load of the prompt path in the tag's worktree directory; without one: the fresh load from the repository; a read prompt is well formed; when the tag's worktree holds the file found there, the read never reports the prompt missing |
| Server.StemOfPromptFile | glueprompt/server/app.py:162-163 | Cutting the found file at its last dot gives back the prompt path |
| Server.GetPromptFailure | glueprompt/server/app.py:208-211 | 404 when the message says not found or not exist (any case), else 500 with the prefix |
| Server.RenderFailure | glueprompt/server/app.py:289-293 | 404 on not found, else 400 on missing required or template, else 500 |
| Server.EncodeVariables | glueprompt/server/app.py:189-197 | One four-field object per variable, in order |
| Server.GetPrompt | glueprompt/server/app.py:131-211 | The repository must exist; the prompt read at the requested version goes out encoded; failures are classified |
| Server.UnknownRepoIs404 | glueprompt/server/app.py:146-147 | An unknown repository is a 404 |
| Server.VersionWithoutPromptIs404 | glueprompt/server/worktree_manager.py:173-182 | A version whose worktree lacks the prompt is a 404 from both `get_prompt` and `render_prompt` |
| Server.NonGitCloneFails | glueprompt/server/app.py:147-149 | A configured clone git cannot open fails both prompt endpoints with "Not a valid git repository: <path>", classified as any other failure message, before any prompt is read |
| Server.MissingPromptRead | glueprompt/server/worktree_manager.py:173-182 | Reading a prompt missing from the version fails with the worktree message, which says not found |
| Server.RenderPrompt | glueprompt/server/app.py:214-293 | A success is the renderer's output for the prompt read at the version; the reported version is the requested one, or the checkout's current branch or tag; with a version, success exactly when rendering succeeds; errors are 404, 400 or 500 |
| Server.ParameterNameIsClientError | glueprompt/server/app.py:263-293 | A render variable named `prompt` or `self` is answered with a 400 or 404 carrying the TypeError's message, never a 500 |
| Server.RenderUsesServedTemplate | glueprompt/server/app.py:131-293 | Whatever `render_prompt` renders, `get_prompt` serves, and the text is the engine's output for the served template |
| Server.VersionsOf | glueprompt/server/app.py:67-104 | The branch listing, the tags and the current name; fails when a listing does |
| Server.ListVersions | glueprompt/server/app.py:61-107 | The repository's versions; every failure becomes a 404 |
| Server.RegistryRenderAgrees | glueprompt/server/app.py:215-260 | For the same prompt and variables the registry renders a text exactly when the server answers with one, and it is the same text |
| Server.ListRepos | glueprompt/server/app.py:38-58 | Exactly the rows whose clone exists |
| Server.ListReposAppend | glueprompt/server/app.py:45-55 | The filter keeps order |
| Server.ServedRepos | glueprompt/server/app.py:38-58 | A configured repository is served exactly when its clone exists |
| Client.NewClient | glueprompt/client.py:65 | All trailing `/` are dropped from the base URL |
| Client.NewClientIgnoresSlashes | glueprompt/client.py:65 | Any number of trailing slashes gives the same client |
| Client.NewClientIdempotent | glueprompt/client.py:65 | Building a client from a client's base URL changes nothing |
| Client.QueryParams | glueprompt/client.py:198-200 | `version` is sent exactly when a non-empty version is given |
| Client.QueryReachesServer | glueprompt/client.py:198-203 | The server reads at exactly the version the client was given |
| Client.ErrorDetail | glueprompt/client.py:95-101 | The `detail` entry of a JSON object body, else the raw text |
| Client.DetailOfErrorBody | glueprompt/client.py:95-101 | The server's detail is the detail the client reads |
| Client.HandleHttpError | glueprompt/client.py:95-113 | 404: not found. 400: template error if the detail mentions template or render (any case), else validation; a non-text detail fails on `.lower()`. 500: server error. Other: `HTTP <code>` |
| Client.Receive | glueprompt/client.py:205-208 | An error status raises through the classifier, otherwise the body is decoded |
| Client.ReceiveDelivered | glueprompt/client.py:205-208 | An endpoint's body arrives unchanged |
| Client.GetFailureReachesClient | glueprompt/client.py:103-111 | A get failure reaches the client as not found, else as a server error |
| Client.RenderFailureReachesClient | glueprompt/client.py:103-111 | A render failure reaches the client as not found, template, validation or server error |
| Client.MissingVariableBecomesValidation | glueprompt/client.py:105-109 | A missing-variable render failure reaches the client as a validation error, not a template error |
| Client.ConvertPromptResponse | glueprompt/client.py:115-145 | Succeeds exactly when every variable's fields build a definition; metadata and template as sent; the result is a dictionary; failures are value errors; with distinct names, each variable is its name with the definition its fields parse to, in order |
| Client.ConvertFillsDefaults | glueprompt/client.py:133-139 | A variable sent without fields gets every default |
| Client.ConvertRoundTrip | glueprompt/client.py:115-145 | The server's encoding of a prompt converts back into that prompt |
| Client.ServedPromptConvertsBack | glueprompt/client.py:115-145 | What `get_prompt` answers converts back into the prompt the server read |
| Client.Get | glueprompt/client.py:176-219 | The converted prompt, validated when asked; error statuses are classified |
| Client.GetThroughServer | glueprompt/client.py:176-219 | A served prompt is returned as is, refused exactly when asked validation fails |
| Client.Validate | glueprompt/client.py:272-286 | Exactly the validator's messages for the prompt fetched without validation, empty exactly for a valid prompt |
| Client.Render | glueprompt/client.py:221-270 | With validation the prompt is fetched and validated first; the render reply's text is returned |
| Client.RenderThroughServer | glueprompt/client.py:253-270 | What the server renders is what the client returns |
| Client.FindCurrent | glueprompt/client.py:331-362 | The first branch named current, else the first such tag, else a version error; the message is empty and the date is the call's time |
| Client.CurrentVersion | glueprompt/client.py:315-362 | The current version found in the listing reply |
| Client.CurrentOnBranch | glueprompt/client.py:331-347 | On a branch the client reports that branch and its short hash |
| Client.CurrentBranchListed | glueprompt/client.py:336-347 | The branch HEAD is on is listed exactly once, with its short hash |
| Client.DetachedUntaggedFails | glueprompt/client.py:331-362 | On a detached, untagged HEAD the client raises, where the local registry reports `HEAD` |
| Client.NoBranchNamedHead | glueprompt/client.py:336-337 | A listing names `HEAD` only when a local branch has that name |
| Client.Checkout | glueprompt/client.py:435-450 | Always a version error naming checkout |
| Client.Diff | glueprompt/client.py:452-476 | Always a version error naming diff |
| Client.Rollback | glueprompt/client.py:478-492 | Always a version error naming rollback |
| Client.ClearCache | glueprompt/client.py:494-505 | Always a not-implemented error |
| Client.InvalidateCache | glueprompt/client.py:507-521 | Always a not-implemented error |

## Left out

- Git itself is not modelled: cloning, fetching, `git worktree add` and `remove`, pulling, committing and tag creation (`git_commit`). A failed `worktree add` or clone is an error parameter. `git diff` output is git's; the model states only the arguments passed to it.
- YAML parsing and dumping: documents arrive parsed, as `Value`s.
- Jinja2 parsing and rendering: the parser's verdict and the engine are parameters.
- `PromptDiffer.diff_prompts`: its text comes from `difflib.unified_diff`.
- HTTP transport, FastAPI routing and Pydantic envelopes: only the record shapes and status codes are modelled. Not modelled:
  - the `/health` and `/repos/{repo}/prompts` endpoints;
  - the client's `list_versions`, `list_prompts`, `list_repos` and `health_check`, which only decode replies.
- Command-line presentation: Rich output, interactive variable prompts, the editor launch, and the `serve`, `repo update` and `prompt list` commands.
- Logging, and the settings singleton in `config.py`: the default prompts directory is an explicit argument.
- The real file system: no symbolic links, and `Path.resolve` is lexical `..` folding. The worktree base and the repository cache are maps from names to entries.
- Wall-clock time: an integer `now`. Commit dates are integers too, and floats do not occur.
- Python `repr` quoting details: lists of names render with single quotes only, with no escaping.
- Duplicate keys in JSON or YAML: documents are insertion-ordered tables with distinct keys.
- Pydantic's lax coercion of wire types: a field of the wrong type is a validation error.
- Client.HasVersioning: carries no contract; it always answers true.
- Floating-point values: `Value` has no float variant, so a YAML or JSON float default, and its truthiness and `str()`, are not modelled.
- Strings.ParseInt: accepts ASCII digits only, while Python's `int()` also accepts other Unicode decimal digits.
- Validator.ValidTypesListing: `VALID_TYPES` is a Python set, whose iteration order depends on string hashing and can differ between processes; the model lists the types in one fixed order.
- Validator.Validate: the invalid-type message lists the valid types in the fixed order of `Validator.ValidTypesListing`, which a given Python process may not use.
- Registry.ListVersions: composes the corrected `Versioning.ListBranches`; the code runs the listing as written, which also fails on a remote branch with `origin/` inside its name (`Versioning.ListBranchesAsWrittenFails`).
- Server.VersionsOf: composes the corrected `Versioning.ListBranches`, as `Registry.ListVersions` does.
- Server.ListVersions: built on `Server.VersionsOf`, so it states the corrected listing too.
- Worktree.AvailableVersions: uses the corrected `Git.OriginBranches`; worktree_manager.py:119 deletes every `origin/`, so as written the remote branch `team/origin/x` is offered as `team/x`.
- Worktree.ResolveVersion: resolves remote branches through the corrected `Git.OriginBranches`, as `Worktree.AvailableVersions` does.
- Worktree.EnsureWorktree: creates worktrees through `Worktree.ResolveVersion`, so it follows the corrected remote-branch names.
- Worktree.NewWorktree: likewise resolves through the corrected `Worktree.ResolveVersion`.
- RepoManager.Clone: names the clone with the corrected `RepoManager.UrlToRepoName`; as written (`rstrip(".git")`) `…/widget.git` is cloned under `widge` (`RepoManager.WidgetMisnamed`).
- Client.Render: starts from the server's replies. The client's own `render(prompt_path, validate, version, **variables)` raises a TypeError before any request for a variable named `self` or `prompt_path`, and a variable named `validate` or `version` sets that parameter instead of reaching the template; neither is modelled.
- Server.ParameterNameIsClientError: proves a 400 or a 404, not exactly 400; the 404 would need the TypeError's message to contain "not found", which it does not, but that is not proved.
- Server.ReadPrompt: the worktree's file system is a parameter, not derived from the files the worktree manager records; the contract ties the two only through the found file (when that file exists there, the read does not report the prompt missing).
- Strings.Lower: lower-cases ASCII letters only, while Python's `str.lower()` covers all of Unicode. The error texts it is applied to are tested for the ASCII keywords "not found", "not exist", "missing required", "template" and "render", and no non-ASCII character lower-cases to an ASCII letter except the Kelvin sign and the dotted capital I, so the verdicts agree unless a message contains one of those two characters.
- Values.PyEqual: ints and bools compare as Python compares them; floats, which Python also compares with ints, are not modelled.
- Server.GetPrompt and Server.RenderPrompt: the worktree manager's state after the call (a worktree it created) is not returned; each request builds a fresh manager over the same directories.

## Findings

| source | as written | input that shows it | evidently intended | confidence | as-written member | corrected member |
|---|---|---|---|---|---|---|
| glueprompt/repo_manager.py:115 | `rstrip(".git")` strips any trailing run of `.`, `g`, `i`, `t` | `https://github.com/acme/widget.git` is named `widge` | drop one `.git` suffix | not executed | RepoManager.WidgetMisnamed | RepoManager.WidgetNamed |
| glueprompt/server/worktree_manager.py:225 | cleanup reads every `_` of a directory name as `/` | active version `my_branch` has its worktree removed | keep the worktree of every active version | not executed | Worktree.MyBranchRemoved | Worktree.Cleanup |
| glueprompt/versioning.py:131 | `line.replace("origin/", "")` deletes every `origin/` | remote branch `team/origin/x` is read as `team/x`, and `git rev-parse origin/team/x` fails the listing | remove only the leading `origin/` | not executed | Versioning.TeamOriginListing | Versioning.ListBranches |

The same replacement appears in glueprompt/server/worktree_manager.py:119. The worktree model uses the corrected `Git.OriginBranches`.
