/** The prompt model: variable definitions, metadata and the prompt itself,
    with the two queries the renderer uses. */
module Prompts {
  import opened Wrappers
  import opened Strings
  import opened Values
  import Assoc

  /** A template variable: its declared type name, whether the caller must
      supply it, the default used otherwise (`Null` for none) and a
      description. */
  datatype VariableDefinition = VariableDefinition(
    varType: string,
    required: bool,
    default: Value,
    description: string)

  /** Pydantic's `d1 == d2` on definitions: every field compared with
      Python's `==`, so only the default can be equal without being
      identical. */
  predicate DefinitionEqual(d1: VariableDefinition, d2: VariableDefinition) {
    && d1.varType == d2.varType
    && d1.required == d2.required
    && PyEqual(d1.default, d2.default)
    && d1.description == d2.description
  }

  /** Definition equality is reflexive and symmetric, and identical
      definitions are equal. */
  lemma DefinitionEqualLaws(d1: VariableDefinition, d2: VariableDefinition)
    ensures DefinitionEqual(d1, d1)
    ensures DefinitionEqual(d1, d2) ==> DefinitionEqual(d2, d1)
  {
    PyEqualReflexive(d1.default);
    if DefinitionEqual(d1, d2) {
      PyEqualSymmetric(d1.default, d2.default);
    }
  }

  /** A definition with every field at its declared default. */
  const DefaultVariable := VariableDefinition("string", true, Null, "")

  datatype PromptMetadata = PromptMetadata(
    name: string,
    version: string,
    description: string,
    author: string,
    tags: seq<string>)

  /** Metadata with only the name given. */
  function NamedMetadata(name: string): (m: PromptMetadata)
    ensures m.name == name && m.version == "1.0.0"
    ensures m.description == "" && m.author == "" && m.tags == []
  {
    PromptMetadata(name, "1.0.0", "", "", [])
  }

  /** A prompt: metadata, the Jinja2 template text and the variable
      definitions, in the order they were declared. */
  datatype Prompt = Prompt(
    metadata: PromptMetadata,
    template: string,
    variables: Assoc.Table<VariableDefinition>)

  /** The variable definitions form a dictionary. */
  predicate WellFormed(p: Prompt) {
    Assoc.Distinct(p.variables)
  }

  /** Names of the required variables, in declaration order. */
  function RequiredVariables(vars: Assoc.Table<VariableDefinition>): (r: seq<string>)
    ensures forall x :: x in r ==> Assoc.HasKey(vars, x)
    ensures Assoc.Distinct(vars) ==>
      forall x :: x in r <==> Assoc.HasKey(vars, x) && Assoc.Get(vars, x).value.required
    ensures Assoc.Distinct(vars) ==> NoDuplicates(r)
    ensures Subsequence(r, Assoc.Keys(vars))
  {
    if |vars| == 0 then []
    else if vars[0].1.required then [vars[0].0] + RequiredVariables(vars[1..])
    else RequiredVariables(vars[1..])
  }

  /** The defaults of the optional variables that have one, in declaration
      order. */
  function VariableDefaults(vars: Assoc.Table<VariableDefinition>): (r: Assoc.Table<Value>)
    ensures Assoc.Distinct(vars) ==> Assoc.Distinct(r)
    ensures Assoc.Distinct(vars) ==> forall x ::
      Assoc.Get(r, x) ==
        (if Assoc.HasKey(vars, x) && !Assoc.Get(vars, x).value.required
            && Assoc.Get(vars, x).value.default != Null
         then Some(Assoc.Get(vars, x).value.default)
         else None)
  {
    if |vars| == 0 then []
    else if !vars[0].1.required && vars[0].1.default != Null then
      [(vars[0].0, vars[0].1.default)] + VariableDefaults(vars[1..])
    else VariableDefaults(vars[1..])
  }

  /** The required names and the names with a default are disjoint, and
      both are names of declared variables. */
  lemma RequiredHaveNoDefault(vars: Assoc.Table<VariableDefinition>, x: string)
    requires Assoc.Distinct(vars)
    ensures x in RequiredVariables(vars) ==> !Assoc.HasKey(VariableDefaults(vars), x)
    ensures Assoc.HasKey(VariableDefaults(vars), x) ==> Assoc.HasKey(vars, x)
  {
  }

  /** A prompt file: a name the `*.yaml` or `*.yml` patterns match. */
  predicate IsPromptFile(f: string) {
    EndsWith(f, ".yaml") || EndsWith(f, ".yml")
  }
}
