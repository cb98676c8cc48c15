/** The HTTP client that stands in for the local registry: the base URL and
    query parameters it sends, how it turns an error response into an
    exception, how it converts a prompt response back into a prompt, and
    how it picks the current version out of a version listing. Each HTTP
    exchange is a `Reply` parameter; `Deliver` connects the server's
    endpoints to it. */
module Client {
  import opened Wrappers
  import opened Strings
  import opened Values
  import opened Errors
  import opened ApiModels
  import opened Git
  import Prompts
  import Assoc
  import Loader
  import Validator
  import Versioning
  import Server
  import RepoManager

  datatype Client = Client(baseUrl: string, repo: string)

  /** `APIPromptRegistry(base_url, repo)`: every trailing `/` of the base
      URL is dropped. */
  function NewClient(baseUrl: string, repo: string): (c: Client)
    ensures c.repo == repo
    ensures StartsWith(baseUrl, c.baseUrl)
    ensures c.baseUrl == "" || c.baseUrl[|c.baseUrl| - 1] != '/'
    ensures forall i :: |c.baseUrl| <= i < |baseUrl| ==> baseUrl[i] == '/'
  {
    Client(RStrip(baseUrl, {'/'}), repo)
  }

  /** Trailing slashes make no difference, however many there are. */
  lemma {:induction false} NewClientIgnoresSlashes(baseUrl: string, slashes: string, repo: string)
    requires forall i :: 0 <= i < |slashes| ==> slashes[i] == '/'
    ensures NewClient(baseUrl + slashes, repo) == NewClient(baseUrl, repo)
    decreases |slashes|
  {
    if |slashes| > 0 {
      var shorter := slashes[..|slashes| - 1];
      assert (baseUrl + slashes)[..|baseUrl + slashes| - 1] == baseUrl + shorter;
      NewClientIgnoresSlashes(baseUrl, shorter, repo);
    } else {
      assert baseUrl + slashes == baseUrl;
    }
  }

  /** Building a client from a client's base URL changes nothing. */
  lemma NewClientIdempotent(baseUrl: string, repo: string)
    ensures NewClient(NewClient(baseUrl, repo).baseUrl, repo) == NewClient(baseUrl, repo)
  {
    var u := NewClient(baseUrl, repo).baseUrl;
    assert RStrip(u, {'/'}) == u;
  }

  // ---------------------------------------------------------------------
  // Query parameters

  /** The query parameters of a prompt request: `version` when one is given. */
  function QueryParams(version: Option<string>): (r: seq<(string, string)>)
    ensures Assoc.HasKey(r, "version") <==> Given(version)
    ensures Given(version) ==> Assoc.Get(r, "version") == Some(version.value)
    ensures |r| <= 1
  {
    if Given(version) then [("version", version.value)] else []
  }

  /** The `version` query parameter as an endpoint reads it. */
  function ReadVersion(params: seq<(string, string)>): Option<string> {
    Assoc.Get(params, "version")
  }

  /** The server asks for exactly the version the client was given: the
      same tag, or the checkout when no version (or an empty one) is given. */
  lemma QueryReachesServer(promptPath: string, version: Option<string>)
    ensures Given(ReadVersion(QueryParams(version))) <==> Given(version)
    ensures Server.FetchRef(promptPath, ReadVersion(QueryParams(version))) == Server.FetchRef(promptPath, version)
  {
  }

  // ---------------------------------------------------------------------
  // Error responses

  /** The error detail: the `detail` entry of a JSON object body, else the
      raw body text. Only a JSON object can hold the entry; for a list or a
      string the lookup fails and the text is kept. */
  function ErrorDetail(text: string, json: Option<Value>): (r: Value)
    ensures json.Some? && json.value.Dict? && Assoc.HasKey(json.value.entries, "detail") ==>
      r == Assoc.Get(json.value.entries, "detail").value
    ensures !(json.Some? && json.value.Dict? && Assoc.HasKey(json.value.entries, "detail")) ==>
      r == Str(text)
  {
    if json.Some? && json.value.Dict? then
      match Assoc.Get(json.value.entries, "detail")
      case Some(d) => d
      case None => Str(text)
    else Str(text)
  }

  /** The detail the server sends is the detail the client reads. */
  lemma DetailOfErrorBody(text: string, detail: string)
    ensures ErrorDetail(text, Some(ErrorBody(detail))) == Str(detail)
  {
    assert Assoc.Get(ErrorBody(detail).entries, "detail") == Some(Str(detail));
  }

  /** Mentions of a template or of rendering, in any case. */
  predicate MentionsRendering(detail: string) {
    Contains(Lower(detail), "template") || Contains(Lower(detail), "render")
  }

  /** `_handle_http_error`: 404 is a missing prompt, 400 a template error
      when the detail mentions templates or rendering and a validation error
      otherwise, 500 a server error, and any other status a generic error.
      A 400 whose detail is not a string fails on `.lower()`. */
  function HandleHttpError(status: int, text: string, json: Option<Value>): (e: Error)
    ensures e.PromptNotFound? <==> status == 404
    ensures status == 404 ==> e.msg == PyStr(ErrorDetail(text, json))
    ensures status == 400 && ErrorDetail(text, json).Str? ==>
      && e.msg == ErrorDetail(text, json).s
      && (e.TemplateRender? <==> MentionsRendering(ErrorDetail(text, json).s))
      && (e.PromptValidation? <==> !MentionsRendering(ErrorDetail(text, json).s))
    ensures status == 400 && !ErrorDetail(text, json).Str? ==> e.AttributeErr?
    ensures status != 400 && status != 404 ==> e.Generic?
    ensures status == 500 ==> e.msg == "Server error: " + PyStr(ErrorDetail(text, json))
    ensures status != 400 && status != 404 && status != 500 ==>
      e.msg == "HTTP " + IntToString(status) + ": " + PyStr(ErrorDetail(text, json))
  {
    var detail := ErrorDetail(text, json);
    if status == 404 then PromptNotFound(PyStr(detail))
    else if status == 400 then
      if !detail.Str? then AttributeErr("'" + TypeName(detail) + "' object has no attribute 'lower'")
      else if MentionsRendering(detail.s) then TemplateRender(detail.s)
      else PromptValidation(detail.s)
    else if status == 500 then Generic("Server error: " + PyStr(detail))
    else Generic("HTTP " + IntToString(status) + ": " + PyStr(detail))
  }

  /** A reply as a method reads it: an error status raises, a body that
      does not fit the expected record `model` is a validation error, and
      otherwise the record is returned. */
  function Receive<T>(reply: Reply<T>, model: string): (r: Result<T, Error>)
    ensures IsError(reply.status) ==> r == Failure(HandleHttpError(reply.status, reply.text, reply.json))
    ensures r.Success? <==> !IsError(reply.status) && reply.payload.Some?
    ensures r.Success? ==> r.value == reply.payload.value
  {
    if IsError(reply.status) then Failure(HandleHttpError(reply.status, reply.text, reply.json))
    else if reply.payload.None? then Failure(ValueErr("validation error for " + model))
    else Success(reply.payload.value)
  }

  /** An endpoint's body arrives unchanged. */
  lemma ReceiveDelivered<T>(body: T, text: string, model: string)
    ensures Receive(Deliver(Ok(body), text), model) == Success(body)
  {
  }

  /** How a `get_prompt` failure reaches the client: as a missing prompt
      when the server answered 404, else as a server error. */
  lemma GetFailureReachesClient(msg: string, text: string)
    ensures Contains(Lower(msg), "not found") || Contains(Lower(msg), "not exist") ==>
      Receive(Deliver(Server.GetPromptFailure(msg), text), "PromptResponse") == Failure(PromptNotFound(msg))
    ensures !(Contains(Lower(msg), "not found") || Contains(Lower(msg), "not exist")) ==>
      Receive(Deliver(Server.GetPromptFailure(msg), text), "PromptResponse")
      == Failure(Generic("Server error: " + "Internal server error: " + msg))
  {
    var h := Server.GetPromptFailure(msg);
    ErrorReachesClient(h, text, "PromptResponse");
    if h.status != 404 {
      assert "Server error: " + ("Internal server error: " + msg) == "Server error: " + "Internal server error: " + msg;
    }
  }

  /** How a `render_prompt` failure reaches the client. */
  lemma RenderFailureReachesClient(msg: string, text: string)
    ensures Contains(Lower(msg), "not found") ==>
      Receive(Deliver(Server.RenderFailure(msg), text), "RenderResponse") == Failure(PromptNotFound(msg))
    ensures Server.RenderFailure(msg).status == 400 && MentionsRendering(msg) ==>
      Receive(Deliver(Server.RenderFailure(msg), text), "RenderResponse") == Failure(TemplateRender(msg))
    ensures Server.RenderFailure(msg).status == 400 && !MentionsRendering(msg) ==>
      Receive(Deliver(Server.RenderFailure(msg), text), "RenderResponse") == Failure(PromptValidation(msg))
    ensures Server.RenderFailure(msg).status == 500 ==>
      Receive(Deliver(Server.RenderFailure(msg), text), "RenderResponse")
      == Failure(Generic("Server error: " + "Internal server error: " + msg))
  {
    var h := Server.RenderFailure(msg);
    ErrorReachesClient(h, text, "RenderResponse");
    if h.status == 500 {
      assert "Server error: " + ("Internal server error: " + msg) == "Server error: " + "Internal server error: " + msg;
    }
  }

  /** An endpoint's error arrives as the classification of its status and
      detail. */
  lemma ErrorReachesClient<T>(h: Http<T>, text: string, model: string)
    requires h.HttpError? && IsError(h.status)
    ensures Receive(Deliver(h, text), model) == Failure(HandleHttpError(h.status, text, Some(ErrorBody(h.detail))))
    ensures ErrorDetail(text, Some(ErrorBody(h.detail))) == Str(h.detail)
  {
    DetailOfErrorBody(text, h.detail);
  }

  /** A render failure about a missing required variable, which the
      renderer raises as a template error, reaches the client as a
      validation error unless its message happens to mention a template,
      rendering or something not found. */
  lemma MissingVariableBecomesValidation(msg: string, text: string)
    requires Contains(Lower(msg), "missing required")
    requires !Contains(Lower(msg), "not found") && !MentionsRendering(msg)
    ensures Receive(Deliver(Server.RenderFailure(msg), text), "RenderResponse") == Failure(PromptValidation(msg))
  {
    RenderFailureReachesClient(msg, text);
  }

  // ---------------------------------------------------------------------
  // Prompts

  /** The variables of a prompt response as the values the definitions are
      read from. */
  function VariableValues(vars: seq<(string, seq<(string, Value)>)>): (r: seq<(string, Value)>)
    ensures |r| == |vars|
    ensures forall i :: 0 <= i < |vars| ==> r[i] == (vars[i].0, Dict(vars[i].1))
  {
    if |vars| == 0 then [] else [(vars[0].0, Dict(vars[0].1))] + VariableValues(vars[1..])
  }

  /** `_convert_prompt_response`: the metadata and template as sent, and
      each variable read from its fields with the model's defaults for the
      missing ones; a field of the wrong type fails validation. */
  function ConvertPromptResponse(resp: PromptResponse): (r: Result<Prompts.Prompt, Error>)
    ensures r.Success? <==>
      forall i :: 0 <= i < |resp.variables| ==> Loader.ParseVariable(Dict(resp.variables[i].1)).Success?
    ensures r.Success? ==>
      && r.value.metadata == resp.metadata
      && r.value.template == resp.template
      && Prompts.WellFormed(r.value)
    ensures r.Failure? ==> r.error.ValueErr?
    ensures r.Success? && Assoc.Distinct(resp.variables) ==>
      && |r.value.variables| == |resp.variables|
      && forall i :: 0 <= i < |resp.variables| ==>
           r.value.variables[i] == (resp.variables[i].0, Loader.ParseVariable(Dict(resp.variables[i].1)).value)
  {
    var defs := VariableValues(resp.variables);
    assert Assoc.Distinct(resp.variables) ==> Loader.FreshKeys(defs, []) by {
      if Assoc.Distinct(resp.variables) {
        Assoc.DistinctSameKeys(resp.variables, defs);
      }
    }
    match Loader.ParseVariables(defs, [])
    case Failure(e) => Failure(ValueErr(e))
    case Success(vars) => Success(Prompts.Prompt(resp.metadata, resp.template, vars))
  }

  /** A variable sent without any fields gets every default. */
  lemma ConvertFillsDefaults(resp: PromptResponse, name: string)
    requires resp.variables == [(name, [])]
    ensures ConvertPromptResponse(resp) == Success(Prompts.Prompt(resp.metadata, resp.template, [(name, Prompts.DefaultVariable)]))
  {
    var defs := VariableValues(resp.variables);
    assert defs == [(name, Dict([]))];
    assert Loader.ParseVariable(Dict([])) == Success(Prompts.DefaultVariable);
    assert Assoc.Put([], name, Prompts.DefaultVariable) == [(name, Prompts.DefaultVariable)];
    assert defs[1..] == [];
    assert Loader.ParseVariables(defs[1..], [(name, Prompts.DefaultVariable)]) == Success([(name, Prompts.DefaultVariable)]);
  }

  /** The response the server sends for a prompt converts back into that
      prompt. */
  lemma {:induction false} ConvertRoundTrip(p: Prompts.Prompt)
    requires Prompts.WellFormed(p)
    ensures ConvertPromptResponse(Server.EncodePrompt(p)) == Success(p)
  {
    var vars := Server.EncodePrompt(p).variables;
    var values, docs := VariableValues(vars), Loader.VariableDocuments(p.variables);
    forall i | 0 <= i < |docs|
      ensures values[i] == docs[i]
    {
      EncodedDocument(p.variables[i].1);
    }
    assert values == docs;
    assert [] + p.variables == p.variables;
    Loader.ParseVariableDocuments(p.variables, []);
  }

  /** What `get_prompt` answers converts back into the prompt the server
      read, so the client sees the prompt as stored. */
  lemma ServedPromptConvertsBack(
    m: RepoManager.Manager,
    repo: string,
    promptPath: string,
    version: Option<string>,
    fetch: Option<string> -> Result<Prompts.Prompt, Error>
  )
    requires fetch(Server.FetchRef(promptPath, version)).Success? ==>
      Prompts.WellFormed(fetch(Server.FetchRef(promptPath, version)).value)
    ensures Server.GetPrompt(m, repo, promptPath, version, fetch).Ok? ==>
      ConvertPromptResponse(Server.GetPrompt(m, repo, promptPath, version, fetch).body)
        == fetch(Server.FetchRef(promptPath, version))
  {
    if Server.GetPrompt(m, repo, promptPath, version, fetch).Ok? {
      ConvertRoundTrip(fetch(Server.FetchRef(promptPath, version)).value);
    }
  }

  /** A definition's fields on the wire are the mapping it is written as. */
  lemma EncodedDocument(d: Prompts.VariableDefinition)
    ensures Dict(Server.EncodeVariable(d)) == Loader.VariableDocument(d)
  {
  }

  /** `get(prompt_path, validate, version)` given the reply: the converted
      prompt, validated when asked, with `syntax` the template parser's
      verdict on a template. */
  function Get(reply: Reply<PromptResponse>, validate: bool, syntax: string -> Option<string>)
    : (r: Result<Prompts.Prompt, Error>)
    ensures IsError(reply.status) ==> r == Failure(HandleHttpError(reply.status, reply.text, reply.json))
    ensures r.Success? ==>
      && Receive(reply, "PromptResponse").Success?
      && ConvertPromptResponse(reply.payload.value) == Success(r.value)
      && (validate ==> Validator.Valid(r.value, syntax(r.value.template)))
    ensures (Receive(reply, "PromptResponse").Success?
             && ConvertPromptResponse(reply.payload.value).Success?) ==>
      (r.Success? <==> !validate || Validator.Valid(ConvertPromptResponse(reply.payload.value).value,
                                                    syntax(reply.payload.value.template)))
  {
    match Receive(reply, "PromptResponse")
    case Failure(e) => Failure(e)
    case Success(resp) =>
      match ConvertPromptResponse(resp)
      case Failure(e) => Failure(e)
      case Success(p) =>
        if !validate then Success(p)
        else
          match Validator.ValidateAndRaise(p, syntax(p.template))
          case Failure(e) => Failure(e)
          case Success(_) => Success(p)
  }

  /** A prompt served by the server is the prompt the client returns,
      refused exactly when validation is asked for and fails. */
  lemma GetThroughServer(p: Prompts.Prompt, text: string, validate: bool, syntax: string -> Option<string>)
    requires Prompts.WellFormed(p)
    ensures Get(Deliver(Ok(Server.EncodePrompt(p)), text), validate, syntax).Success?
      <==> !validate || Validator.Valid(p, syntax(p.template))
    ensures Get(Deliver(Ok(Server.EncodePrompt(p)), text), validate, syntax).Success? ==>
      Get(Deliver(Ok(Server.EncodePrompt(p)), text), validate, syntax).value == p
  {
    ConvertRoundTrip(p);
  }

  /** `validate(prompt_path, version)`: the validator's messages for the
      prompt fetched without validation. */
  function Validate(reply: Reply<PromptResponse>, syntax: string -> Option<string>)
    : (r: Result<seq<string>, Error>)
    ensures IsError(reply.status) ==> r == Failure(HandleHttpError(reply.status, reply.text, reply.json))
    ensures r.Success? <==> Get(reply, false, syntax).Success?
    ensures r.Success? ==>
      (r.value == [] <==> Validator.Valid(Get(reply, false, syntax).value,
                                          syntax(Get(reply, false, syntax).value.template)))
    ensures r.Success? ==>
      r.value == Validator.Validate(Get(reply, false, syntax).value, syntax(Get(reply, false, syntax).value.template))
  {
    match Get(reply, false, syntax)
    case Failure(e) => Failure(e)
    case Success(p) => Success(Validator.Validate(p, syntax(p.template)))
  }

  /** `render(prompt_path, validate, version, **variables)`: with
      validation the prompt is fetched and validated first, and any failure
      there is raised; then the render reply's text is returned. */
  function Render(validate: bool, getReply: Reply<PromptResponse>, renderReply: Reply<RenderResponse>,
                  syntax: string -> Option<string>): (r: Result<string, Error>)
    ensures validate && Get(getReply, true, syntax).Failure? ==> r == Failure(Get(getReply, true, syntax).error)
    ensures r.Success? <==>
      (!validate || Get(getReply, true, syntax).Success?) && Receive(renderReply, "RenderResponse").Success?
    ensures r.Success? ==> r.value == renderReply.payload.value.rendered
  {
    if validate && Get(getReply, true, syntax).Failure? then Failure(Get(getReply, true, syntax).error)
    else
      match Receive(renderReply, "RenderResponse")
      case Failure(e) => Failure(e)
      case Success(resp) => Success(resp.rendered)
  }

  /** What the server renders is what the client returns. */
  lemma RenderThroughServer(body: RenderResponse, text: string, getReply: Reply<PromptResponse>,
                            syntax: string -> Option<string>)
    ensures Render(false, getReply, Deliver(Ok(body), text), syntax) == Success(body.rendered)
  {
  }

  // ---------------------------------------------------------------------
  // The current version

  /** The index of the first entry named `name`, or the length when none is. */
  function FirstNamed(xs: seq<VersionInfoResponse>, name: string): (k: nat)
    ensures k <= |xs|
    ensures forall j :: 0 <= j < k ==> xs[j].name != name
    ensures k < |xs| ==> xs[k].name == name
  {
    if |xs| == 0 || xs[0].name == name then 0 else 1 + FirstNamed(xs[1..], name)
  }

  /** The current version in a version listing: the first branch with the
      current name, else the first tag with it, else an error. The message
      is left empty and the date is the time of the call, `now`. */
  function FindCurrent(resp: VersionsResponse, now: int): (r: Result<Versioning.VersionInfo, Error>)
    ensures r.Success? <==>
      (exists i :: 0 <= i < |resp.branches| && resp.branches[i].name == resp.current)
      || (exists i :: 0 <= i < |resp.tags| && resp.tags[i].name == resp.current)
    ensures r.Success? ==>
      && r.value.branchOrTag == resp.current
      && r.value.commitMessage == ""
      && r.value.commitDate == now
      && (r.value.isBranch <==> exists i :: 0 <= i < |resp.branches| && resp.branches[i].name == resp.current)
    ensures r.Success? && r.value.isBranch ==>
      r.value.commitHash == resp.branches[FirstNamed(resp.branches, resp.current)].commitHash
    ensures r.Success? && !r.value.isBranch ==>
      r.value.commitHash == resp.tags[FirstNamed(resp.tags, resp.current)].commitHash
    ensures r.Failure? ==> r == Failure(VersionErr("Could not find current version: " + resp.current))
  {
    var b := FirstNamed(resp.branches, resp.current);
    var t := FirstNamed(resp.tags, resp.current);
    if b < |resp.branches| then
      Success(Versioning.VersionInfo(resp.current, resp.branches[b].commitHash, "", now, true))
    else if t < |resp.tags| then
      Success(Versioning.VersionInfo(resp.current, resp.tags[t].commitHash, "", now, false))
    else Failure(VersionErr("Could not find current version: " + resp.current))
  }

  /** `current_version()` given the reply to the version listing. */
  function CurrentVersion(reply: Reply<VersionsResponse>, now: int): (r: Result<Versioning.VersionInfo, Error>)
    ensures IsError(reply.status) ==> r == Failure(HandleHttpError(reply.status, reply.text, reply.json))
    ensures Receive(reply, "VersionsResponse").Success? ==> r == FindCurrent(reply.payload.value, now)
  {
    match Receive(reply, "VersionsResponse")
    case Failure(e) => Failure(e)
    case Success(resp) => FindCurrent(resp, now)
  }

  /** On a branch, the client reports the branch the server's checkout is
      on, with the same short hash. */
  lemma CurrentOnBranch(g: Repo, now: int)
    requires Server.VersionsOf(g).Success? && g.head.OnBranch?
    ensures FindCurrent(Server.VersionsOf(g).value, now)
      == Success(Versioning.VersionInfo(g.head.branch, Versioning.CurrentVersion(g).value.commitHash, "", now, true))
  {
    var resp := Server.VersionsOf(g).value;
    var listing := Versioning.ListBranches(g).value;
    var name := g.head.branch;
    var i := CurrentBranchListed(g);
    assert resp.branches[i].name == name;
    var k := FirstNamed(resp.branches, name);
    assert resp.branches[k].name == listing[k].name;
  }

  /** The branch HEAD is on appears in the listing exactly once, with the
      short hash of the commit it points at. */
  lemma CurrentBranchListed(g: Repo) returns (i: nat)
    requires Versioning.ListBranches(g).Success? && g.head.OnBranch?
    requires Versioning.CurrentVersion(g).Success?
    ensures i < |Versioning.ListBranches(g).value|
    ensures Versioning.ListBranches(g).value[i].name == g.head.branch
    ensures Versioning.ListBranches(g).value[i].commitHash == Versioning.CurrentVersion(g).value.commitHash
    ensures forall j :: (0 <= j < |Versioning.ListBranches(g).value|
                         && Versioning.ListBranches(g).value[j].name == g.head.branch) ==> j == i
  {
    var listing := Versioning.ListBranches(g).value;
    var name := g.head.branch;
    Versioning.LocalPartSpec(g);
    Versioning.ListBranchesLocalFirst(g);
    Versioning.ListBranchesNames(g);
    var local := Versioning.LocalPart(g);
    assert name in Versioning.Names(local);
    i :| 0 <= i < |local| && Versioning.Names(local)[i] == name;
    assert listing[i] == local[i];
    forall j | 0 <= j < |listing| && listing[j].name == name ensures j == i {
      assert Versioning.Names(listing)[j] == Versioning.Names(listing)[i];
    }
  }

  /** On a detached HEAD with no tag, the local registry reports the
      version `HEAD`, but the client finds no entry of that name in the
      listing and raises. */
  lemma DetachedUntaggedFails(g: Repo, now: int)
    requires Server.VersionsOf(g).Success? && g.head.Detached?
    requires Versioning.FirstTagAt(g.tags, g.head.commit.hexsha).None?
    requires "HEAD" !in RefNames(g.branches)
    requires forall i :: 0 <= i < |g.tags| ==> g.tags[i].name != "HEAD"
    ensures Versioning.CurrentVersion(g).Success? && Versioning.CurrentVersion(g).value.branchOrTag == "HEAD"
    ensures FindCurrent(Server.VersionsOf(g).value, now) == Failure(VersionErr("Could not find current version: " + "HEAD"))
  {
    var resp := Server.VersionsOf(g).value;
    NoBranchNamedHead(g);
    assert resp.current == "HEAD";
    assert FirstNamed(resp.branches, "HEAD") == |resp.branches|;
    assert FirstNamed(resp.tags, "HEAD") == |resp.tags|;
  }

  /** A listing names `HEAD` only when a local branch has that name. */
  lemma NoBranchNamedHead(g: Repo)
    requires Versioning.ListBranches(g).Success? && "HEAD" !in RefNames(g.branches)
    ensures forall i :: 0 <= i < |Versioning.ListBranches(g).value| ==> Versioning.ListBranches(g).value[i].name != "HEAD"
  {
    var listing := Versioning.ListBranches(g).value;
    Versioning.ListBranchesNames(g);
    forall i | 0 <= i < |listing| ensures listing[i].name != "HEAD" {
      assert Versioning.Names(listing)[i] == listing[i].name;
    }
  }

  // ---------------------------------------------------------------------
  // Operations the client does not offer

  /** The error of a git operation the client does not offer: a version
      error naming the operation. */
  function Unavailable(operation: string): (e: Error)
    ensures e.VersionErr? && StartsWith(e.msg, operation)
  {
    var rest := " operation is not available via API. Use local PromptRegistry for git operations.";
    StartsWithConcat(operation, rest);
    VersionErr(operation + rest)
  }

  const CacheUnavailable := NotImplemented("Cache management is not available via API. Cache is managed server-side.")

  /** `checkout`: always raises, whatever the arguments. */
  function Checkout(c: Client, branchOrTag: string, createBranch: bool): (r: Result<(), Error>)
    ensures r.Failure? && r.error.VersionErr? && StartsWith(r.error.msg, "Checkout")
  {
    Failure(Unavailable("Checkout"))
  }

  /** `diff`: always raises, whatever the arguments. */
  function Diff(c: Client, promptPath: string, version1: Option<string>, version2: Option<string>)
    : (r: Result<string, Error>)
    ensures r.Failure? && r.error.VersionErr? && StartsWith(r.error.msg, "Diff")
  {
    Failure(Unavailable("Diff"))
  }

  /** `rollback`: always raises, whatever the arguments. */
  function Rollback(c: Client, version: string): (r: Result<(), Error>)
    ensures r.Failure? && r.error.VersionErr? && StartsWith(r.error.msg, "Rollback")
  {
    Failure(Unavailable("Rollback"))
  }

  /** `clear_cache` and `invalidate_cache`: the cache lives on the server. */
  function ClearCache(c: Client): (r: Result<(), Error>)
    ensures r.Failure? && r.error.NotImplemented?
  {
    Failure(CacheUnavailable)
  }

  function InvalidateCache(c: Client, promptPath: Option<string>): (r: Result<(), Error>)
    ensures r.Failure? && r.error.NotImplemented?
  {
    Failure(CacheUnavailable)
  }

  /** `has_versioning`: the client always claims versioning support. */
  function HasVersioning(c: Client): bool {
    true
  }
}
