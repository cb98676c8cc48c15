/** Template rendering: defaults merged under the caller's variables, the
    required-variable check, and the translation of the template engine's
    failures into `TemplateRenderError`. The Jinja2 engine itself is a
    parameter. */
module Renderer {
  import opened Wrappers
  import opened Strings
  import opened Values
  import opened Prompts
  import opened Errors
  import Assoc

  /** What the Jinja2 environment (with strict undefined variables) does with
      a template text and the variables: renders it, or raises
      `UndefinedError`, another `TemplateError` (including a syntax error), or
      any other exception. */
  datatype EngineOutcome =
    | Rendered(text: string)
    | UndefinedVar(detail: string)
    | TemplateFailure(detail: string)
    | OtherFailure(detail: string)

  /** The variables the template sees: the optional variables' defaults,
      then the caller's variables assigned over them. */
  function MergedVariables(p: Prompt, provided: Assoc.Table<Value>): (r: Assoc.Table<Value>)
    ensures WellFormed(p) && Assoc.Distinct(provided) ==> Assoc.Distinct(r)
    ensures WellFormed(p) && Assoc.Distinct(provided) ==> forall x ::
      Assoc.Get(r, x) ==
        if Assoc.HasKey(provided, x) then Assoc.Get(provided, x)
        else Assoc.Get(VariableDefaults(p.variables), x)
  {
    Assoc.Update(VariableDefaults(p.variables), provided)
  }

  /** The required names absent from `merged`, in declaration order. */
  function Missing(required: seq<string>, merged: Assoc.Table<Value>): (r: seq<string>)
    ensures forall x :: x in r <==> x in required && !Assoc.HasKey(merged, x)
    ensures |r| <= |required|
    ensures Subsequence(r, required)
  {
    if |required| == 0 then []
    else if Assoc.HasKey(merged, required[0]) then Missing(required[1..], merged)
    else [required[0]] + Missing(required[1..], merged)
  }

  /** Every required variable was passed by the caller. */
  predicate AllRequiredProvided(p: Prompt, provided: Assoc.Table<Value>) {
    forall x :: x in RequiredVariables(p.variables) ==> Assoc.HasKey(provided, x)
  }

  /** The parameters of `render` besides `**variables`: a caller variable
      with one of these names is bound twice. */
  const RenderParameters: set<string> := {"self", "prompt"}

  /** The `TypeError` a call raises when `**variables` repeats the parameter
      `x` of `callee` (CPython 3.10 and later name the method's class). */
  function BoundTwice(callee: string, x: string): Error {
    TypeErr(callee + "() got multiple values for argument '" + x + "'")
  }

  /** `renderer.render(prompt, **variables)`: the call binds the variables
      first, then the body merges, checks and renders. */
  function Render(
    p: Prompt,
    provided: Assoc.Table<Value>,
    engine: (string, Assoc.Table<Value>) -> EngineOutcome
  ): (r: Result<string, Error>)
    ensures Assoc.FirstKeyIn(provided, RenderParameters).Some? ==>
      r == Failure(BoundTwice("TemplateRenderer.render", Assoc.FirstKeyIn(provided, RenderParameters).value))
    ensures Assoc.FirstKeyIn(provided, RenderParameters).None? && r.Failure? ==> r.error.TemplateRender?
    ensures WellFormed(p) && Assoc.Distinct(provided) ==>
      (r.Success? <==>
        && !Assoc.HasKey(provided, "self") && !Assoc.HasKey(provided, "prompt")
        && AllRequiredProvided(p, provided) && engine(p.template, MergedVariables(p, provided)).Rendered?)
    ensures r.Success? ==> engine(p.template, MergedVariables(p, provided)) == Rendered(r.value)
  {
    var clash := Assoc.FirstKeyIn(provided, RenderParameters);
    if clash.Some? then Failure(BoundTwice("TemplateRenderer.render", clash.value))
    else
    var merged := MergedVariables(p, provided);
    var missing := Missing(RequiredVariables(p.variables), merged);
    if |missing| > 0 then
      assert missing[0] in missing;
      Failure(TemplateRender("Missing required variables: " + Join(", ", missing)))
    else
      match engine(p.template, merged)
      case Rendered(text) => Success(text)
      case UndefinedVar(d) => Failure(TemplateRender("Undefined variable in template: " + d))
      case TemplateFailure(d) => Failure(TemplateRender("Template rendering error: " + d))
      case OtherFailure(d) => Failure(TemplateRender("Unexpected rendering error: " + d))
  }

  /** A required variable the caller leaves out is reported by name, before
      the engine runs, whatever defaults exist. */
  lemma MissingRequiredReported(
    p: Prompt,
    provided: Assoc.Table<Value>,
    engine: (string, Assoc.Table<Value>) -> EngineOutcome,
    x: string)
    requires WellFormed(p) && Assoc.Distinct(provided)
    requires x in RequiredVariables(p.variables) && !Assoc.HasKey(provided, x)
    ensures Render(p, provided, engine).Failure?
    ensures x in Missing(RequiredVariables(p.variables), MergedVariables(p, provided))
    ensures !Assoc.HasKey(provided, "self") && !Assoc.HasKey(provided, "prompt") ==>
      Render(p, provided, engine)
        == Failure(TemplateRender("Missing required variables: "
             + Join(", ", Missing(RequiredVariables(p.variables), MergedVariables(p, provided)))))
  {
    OmittedRequiredIsMissing(p, provided, x);
    MissingFailsRender(p, provided, engine);
  }

  /** Missing names fail the render: with their list when no variable
      clashes with a parameter. */
  lemma MissingFailsRender(p: Prompt, provided: Assoc.Table<Value>, engine: (string, Assoc.Table<Value>) -> EngineOutcome)
    requires |Missing(RequiredVariables(p.variables), MergedVariables(p, provided))| > 0
    ensures Render(p, provided, engine).Failure?
    ensures !Assoc.HasKey(provided, "self") && !Assoc.HasKey(provided, "prompt") ==>
      Render(p, provided, engine)
        == Failure(TemplateRender("Missing required variables: "
             + Join(", ", Missing(RequiredVariables(p.variables), MergedVariables(p, provided)))))
  {
    var clash := Assoc.FirstKeyIn(provided, RenderParameters);
    if clash.Some? {
      assert clash.value == "self" || clash.value == "prompt";
      assert Assoc.HasKey(provided, clash.value);
    }
  }

  /** A required name the caller omits has no default either, so it is
      missing from the merged variables. */
  lemma OmittedRequiredIsMissing(p: Prompt, provided: Assoc.Table<Value>, x: string)
    requires WellFormed(p) && Assoc.Distinct(provided)
    requires x in RequiredVariables(p.variables) && !Assoc.HasKey(provided, x)
    ensures x in Missing(RequiredVariables(p.variables), MergedVariables(p, provided))
  {
    assert !Assoc.HasKey(VariableDefaults(p.variables), x);
    assert !Assoc.HasKey(MergedVariables(p, provided), x);
  }

  /** `validate_template(prompt)`: the parser's verdict as a list of messages. */
  function ValidateTemplate(parseError: Option<string>): (r: seq<string>)
    ensures r == [] <==> parseError.None?
    ensures |r| <= 1
    ensures r != [] ==> r[0] == "Template syntax error: " + parseError.value
  {
    if parseError.Some? then ["Template syntax error: " + parseError.value] else []
  }
}
