/** The prompt loader: turning a YAML document into a prompt, finding the
    file for a prompt path under the prompts directory, and the time-limited
    cache in front of both. The file system and the clock are parameters. */
module Loader {
  import opened Wrappers
  import opened Strings
  import opened Values
  import opened Prompts
  import opened Errors
  import opened Paths
  import Assoc

  // ---------------------------------------------------------------------
  // From a YAML document to a prompt

  const ParseFailure := "Failed to parse prompt YAML: "

  /** `doc.get(key, default)`. */
  function Lookup(doc: seq<(string, Value)>, key: string, default: Value): Value {
    Assoc.Get(doc, key).GetOr(default)
  }

  predicate IsStringList(v: Value) {
    v.List? && forall i :: 0 <= i < |v.items| ==> v.items[i].Str?
  }

  function StringItems(items: seq<Value>): (r: seq<string>)
    requires forall i :: 0 <= i < |items| ==> items[i].Str?
    ensures |r| == |items|
    ensures forall i :: 0 <= i < |items| ==> r[i] == items[i].s
  {
    if |items| == 0 then [] else [items[0].s] + StringItems(items[1..])
  }

  /** The metadata fields with their defaults; the string fields must hold
      strings and the tags a list of strings. */
  function ParseMetadata(doc: seq<(string, Value)>): (r: Result<PromptMetadata, string>)
    ensures r.Success? <==>
      && Lookup(doc, "name", Str("")).Str?
      && Lookup(doc, "version", Str("1.0.0")).Str?
      && Lookup(doc, "description", Str("")).Str?
      && Lookup(doc, "author", Str("")).Str?
      && IsStringList(Lookup(doc, "tags", List([])))
    ensures r.Success? && !Assoc.HasKey(doc, "name") ==> r.value.name == ""
    ensures r.Success? && !Assoc.HasKey(doc, "version") ==> r.value.version == "1.0.0"
    ensures r.Success? && !Assoc.HasKey(doc, "tags") ==> r.value.tags == []
    ensures r.Success? ==>
      && Lookup(doc, "name", Str("")) == Str(r.value.name)
      && Lookup(doc, "version", Str("1.0.0")) == Str(r.value.version)
      && Lookup(doc, "description", Str("")) == Str(r.value.description)
      && Lookup(doc, "author", Str("")) == Str(r.value.author)
      && Lookup(doc, "tags", List([])) == List(StringValues(r.value.tags))
  {
    var name := Lookup(doc, "name", Str(""));
    var version := Lookup(doc, "version", Str("1.0.0"));
    var description := Lookup(doc, "description", Str(""));
    var author := Lookup(doc, "author", Str(""));
    var tags := Lookup(doc, "tags", List([]));
    if name.Str? && version.Str? && description.Str? && author.Str? && IsStringList(tags) then
      assert StringValues(StringItems(tags.items)) == tags.items;
      Success(PromptMetadata(name.s, version.s, description.s, author.s, StringItems(tags.items)))
    else
      Failure("validation error for PromptMetadata")
  }

  /** One entry of `variables`: a mapping gives the definition's fields (with
      their defaults); anything else is the type name, `"string"` when falsy. */
  function ParseVariable(v: Value): (r: Result<VariableDefinition, string>)
    ensures !v.Dict? ==> r.Success? && r.value.required && r.value.default == Null
    ensures !v.Dict? && !Truthy(v) ==> r == Success(DefaultVariable)
    ensures !v.Dict? && Truthy(v) ==> r.value.varType == PyStr(v) && r.value.description == ""
    ensures v.Dict? ==>
      (r.Success? <==> && Lookup(v.entries, "type", Str("string")).Str?
                       && Lookup(v.entries, "required", Bool(true)).Bool?
                       && Lookup(v.entries, "description", Str("")).Str?)
    ensures v.Dict? && r.Success? ==>
      && Str(r.value.varType) == Lookup(v.entries, "type", Str("string"))
      && Bool(r.value.required) == Lookup(v.entries, "required", Bool(true))
      && r.value.default == Lookup(v.entries, "default", Null)
      && Str(r.value.description) == Lookup(v.entries, "description", Str(""))
    ensures v == Dict([]) ==> r == Success(DefaultVariable)
  {
    if v.Dict? then
      var ty := Lookup(v.entries, "type", Str("string"));
      var required := Lookup(v.entries, "required", Bool(true));
      var default := Lookup(v.entries, "default", Null);
      var description := Lookup(v.entries, "description", Str(""));
      if ty.Str? && required.Bool? && description.Str? then
        Success(VariableDefinition(ty.s, required.b, default, description.s))
      else Failure("validation error for VariableDefinition")
    else
      Success(VariableDefinition(if Truthy(v) then PyStr(v) else "string", true, Null, ""))
  }

  /** The definitions of entries that all parse, in order. */
  function Parsed(defs: seq<(string, Value)>): (r: Assoc.Table<VariableDefinition>)
    requires forall i :: 0 <= i < |defs| ==> ParseVariable(defs[i].1).Success?
    ensures |r| == |defs|
    ensures forall i :: 0 <= i < |defs| ==> r[i] == (defs[i].0, ParseVariable(defs[i].1).value)
  {
    if |defs| == 0 then [] else [(defs[0].0, ParseVariable(defs[0].1).value)] + Parsed(defs[1..])
  }

  /** The entries have distinct names, none of which is already in `acc`. */
  predicate FreshKeys(defs: seq<(string, Value)>, acc: Assoc.Table<VariableDefinition>) {
    Assoc.Distinct(defs) && forall i :: 0 <= i < |defs| ==> !Assoc.HasKey(acc, defs[i].0)
  }

  /** The loop over `variables.items()`, assigning each definition into
      `acc`: with fresh names, each entry's definition is appended in
      order. */
  function ParseVariables(defs: seq<(string, Value)>, acc: Assoc.Table<VariableDefinition>)
    : (r: Result<Assoc.Table<VariableDefinition>, string>)
    ensures r.Success? && Assoc.Distinct(acc) ==> Assoc.Distinct(r.value)
    ensures r.Success? <==> forall i :: 0 <= i < |defs| ==> ParseVariable(defs[i].1).Success?
    ensures r.Success? && FreshKeys(defs, acc) ==> r.value == acc + Parsed(defs)
    decreases |defs|
  {
    if |defs| == 0 then
      assert acc + [] == acc;
      Success(acc)
    else
      match ParseVariable(defs[0].1)
      case Failure(e) => Failure(e)
      case Success(d) =>
        var r := ParseVariables(defs[1..], Assoc.Put(acc, defs[0].0, d));
        assert r.Success? <==> forall i :: 1 <= i < |defs| ==> ParseVariable(defs[i].1).Success? by {
          assert forall i :: 1 <= i < |defs| ==> defs[1..][i - 1] == defs[i];
        }
        if r.Success? && FreshKeys(defs, acc) then
          FreshKeysStep(defs, acc, d);
          r
        else r
  }

  /** Taking the first fresh entry into `acc` appends it and leaves the rest
      fresh. */
  lemma FreshKeysStep(defs: seq<(string, Value)>, acc: Assoc.Table<VariableDefinition>, d: VariableDefinition)
    requires |defs| > 0 && FreshKeys(defs, acc) && ParseVariable(defs[0].1) == Success(d)
    requires forall i :: 0 <= i < |defs| ==> ParseVariable(defs[i].1).Success?
    ensures Assoc.Put(acc, defs[0].0, d) == acc + [(defs[0].0, d)]
    ensures FreshKeys(defs[1..], acc + [(defs[0].0, d)])
    ensures (acc + [(defs[0].0, d)]) + Parsed(defs[1..]) == acc + Parsed(defs)
  {
    assert !Assoc.HasKey(acc, defs[0].0);
    Assoc.PutAbsent(acc, defs[0].0, d);
    forall i | 0 <= i < |defs[1..]| ensures !Assoc.HasKey(acc + [(defs[0].0, d)], defs[1..][i].0) {
      FreshTailKey(defs, acc, d, i);
    }
    Assoc.MoveFirst(acc, Parsed(defs));
  }

  /** One key of the tail is neither in `acc` nor the first entry's. */
  lemma FreshTailKey(defs: seq<(string, Value)>, acc: Assoc.Table<VariableDefinition>, d: VariableDefinition, i: int)
    requires |defs| > 0 && FreshKeys(defs, acc)
    requires 0 <= i < |defs| - 1
    ensures !Assoc.HasKey(acc + [(defs[0].0, d)], defs[1..][i].0)
  {
    var x := defs[1..][i].0;
    assert defs[1..][i] == defs[i + 1];
    assert !Assoc.HasKey(acc, x);
    Assoc.HasKeyAt(defs[1..], i);
    assert x != defs[0].0;
    var single: Assoc.Table<VariableDefinition> := [(defs[0].0, d)];
    assert single[1..] == [];
    assert Assoc.Get(single, x) == Assoc.Get(single[1..], x) == None;
    Assoc.HasKeyAppend(acc, single, x);
  }

  /** Parsing distinct entries into an empty table gives their definitions
      in order. */
  lemma ParsedFromEmpty(defs: seq<(string, Value)>)
    requires ParseVariables(defs, []).Success?
    ensures Assoc.Distinct(defs) ==> ParseVariables(defs, []).value == Parsed(defs)
  {
    if Assoc.Distinct(defs) {
      var empty: Assoc.Table<VariableDefinition> := [];
      assert forall k :: !Assoc.HasKey(empty, k);
      assert FreshKeys(defs, empty);
      assert empty + Parsed(defs) == Parsed(defs);
    }
  }

  /** `_parse_yaml(yaml_data)`: metadata, then the template (which must be
      truthy), then the variables, then the template's type; every failure is
      reported as a `PromptValidationError` prefixed with the same text. */
  function ParseYaml(doc: seq<(string, Value)>): (r: Result<Prompt, Error>)
    ensures r.Success? ==> WellFormed(r.value) && r.value.template != ""
    ensures r.Success? ==> Lookup(doc, "template", Str("")) == Str(r.value.template)
    ensures !Truthy(Lookup(doc, "template", Str(""))) && ParseMetadata(doc).Success? ==>
      r == Failure(PromptValidation(ParseFailure + "Prompt template is required"))
    ensures r.Failure? ==> r.error.PromptValidation? && StartsWith(r.error.msg, ParseFailure)
    ensures r.Success? ==> ParseMetadata(doc) == Success(r.value.metadata)
    ensures r.Success? ==>
      && Lookup(doc, "variables", Dict([])).Dict?
      && ParseVariables(Lookup(doc, "variables", Dict([])).entries, []) == Success(r.value.variables)
    ensures r.Success? && Assoc.Distinct(Lookup(doc, "variables", Dict([])).entries) ==>
      r.value.variables == Parsed(Lookup(doc, "variables", Dict([])).entries)
  {
    var meta := ParseMetadata(doc);
    if meta.Failure? then Failure(PromptValidation(ParseFailure + meta.error))
    else
      var template := Lookup(doc, "template", Str(""));
      if !Truthy(template) then Failure(PromptValidation(ParseFailure + "Prompt template is required"))
      else
        var defs := Lookup(doc, "variables", Dict([]));
        if !defs.Dict? then
          Failure(PromptValidation(ParseFailure + "'" + TypeName(defs) + "' object has no attribute 'items'"))
        else
          var vars := ParseVariables(defs.entries, []);
          if vars.Failure? then Failure(PromptValidation(ParseFailure + vars.error))
          else if !template.Str? then Failure(PromptValidation(ParseFailure + "validation error for Prompt"))
          else
            ParsedFromEmpty(defs.entries);
            Success(Prompt(meta.value, template.s, vars.value))
  }

  // ---------------------------------------------------------------------
  // The document a prompt is written as

  function VariableDocument(v: VariableDefinition): Value {
    Dict([("type", Str(v.varType)), ("required", Bool(v.required)),
          ("default", v.default), ("description", Str(v.description))])
  }

  function VariableDocuments(vars: Assoc.Table<VariableDefinition>): (r: seq<(string, Value)>)
    ensures |r| == |vars|
    ensures forall i :: 0 <= i < |vars| ==> r[i] == (vars[i].0, VariableDocument(vars[i].1))
  {
    if |vars| == 0 then [] else [(vars[0].0, VariableDocument(vars[0].1))] + VariableDocuments(vars[1..])
  }

  /** The YAML mapping that describes a prompt, with every field spelled out. */
  function PromptDocument(p: Prompt): seq<(string, Value)> {
    [ ("name", Str(p.metadata.name)),
      ("version", Str(p.metadata.version)),
      ("description", Str(p.metadata.description)),
      ("author", Str(p.metadata.author)),
      ("tags", List(StringValues(p.metadata.tags))),
      ("template", Str(p.template)),
      ("variables", Dict(VariableDocuments(p.variables))) ]
  }

  /** The field names of the two documents differ from one another. */
  lemma FieldNamesDiffer()
    ensures "type" != "required" && "type" != "default" && "type" != "description"
    ensures "required" != "default" && "required" != "description" && "default" != "description"
    ensures "name" != "version" && "name" != "description" && "name" != "author"
    ensures "name" != "tags" && "name" != "template" && "name" != "variables"
    ensures "version" != "description" && "version" != "author" && "version" != "tags"
    ensures "version" != "template" && "version" != "variables"
    ensures "description" != "author" && "description" != "tags" && "description" != "template"
    ensures "description" != "variables"
    ensures "author" != "tags" && "author" != "template" && "author" != "variables"
    ensures "tags" != "template" && "tags" != "variables" && "template" != "variables"
  {
    assert "type"[0] != "required"[0] && "type"[0] != "default"[0] && "type"[0] != "description"[0];
    assert "required"[0] != "default"[0] && "required"[0] != "description"[0];
    assert "default"[2] != "description"[2];
    assert "name"[0] != "version"[0] && "name"[0] != "description"[0] && "name"[0] != "author"[0];
    assert "name"[0] != "tags"[0] && "name"[0] != "template"[0] && "name"[0] != "variables"[0];
    assert "version"[0] != "description"[0] && "version"[0] != "author"[0] && "version"[0] != "tags"[0];
    assert "version"[0] != "template"[0] && "version"[1] != "variables"[1];
    assert "description"[0] != "author"[0] && "description"[0] != "tags"[0];
    assert "description"[0] != "template"[0] && "description"[0] != "variables"[0];
    assert "author"[0] != "tags"[0] && "author"[0] != "template"[0] && "author"[0] != "variables"[0];
    assert "tags"[1] != "template"[1] && "tags"[0] != "variables"[0] && "template"[0] != "variables"[0];
  }

  lemma ParseVariableDocument(v: VariableDefinition)
    ensures ParseVariable(VariableDocument(v)) == Success(v)
  {
    FieldNamesDiffer();
    var fields := VariableDocument(v).entries;
    Assoc.GetFirst(fields, 0);
    Assoc.GetFirst(fields, 1);
    Assoc.GetFirst(fields, 2);
    Assoc.GetFirst(fields, 3);
  }

  lemma {:induction false} ParseVariableDocuments(
    vars: Assoc.Table<VariableDefinition>, acc: Assoc.Table<VariableDefinition>)
    requires Assoc.Distinct(acc + vars)
    ensures ParseVariables(VariableDocuments(vars), acc) == Success(acc + vars)
    decreases |vars|
  {
    if |vars| == 0 {
      assert acc + vars == acc;
    } else {
      DocumentsStep(vars, acc);
      Assoc.MoveFirst(acc, vars);
      ParseVariableDocuments(vars[1..], acc + [vars[0]]);
    }
  }

  /** The loop over the documents of `vars` takes the first one into `acc`
      unchanged. */
  lemma DocumentsStep(vars: Assoc.Table<VariableDefinition>, acc: Assoc.Table<VariableDefinition>)
    requires |vars| > 0 && Assoc.Distinct(acc + vars)
    ensures ParseVariables(VariableDocuments(vars), acc)
      == ParseVariables(VariableDocuments(vars[1..]), acc + [vars[0]])
  {
    var docs := VariableDocuments(vars);
    var v0 := vars[0];
    assert docs[0] == (v0.0, VariableDocument(v0.1));
    ParseVariableDocument(v0.1);
    ParseVariablesStep(docs, acc, v0.1);
    DistinctPrefixKey(acc, vars);
    Assoc.PutAbsent(acc, v0.0, v0.1);
    assert docs[1..] == VariableDocuments(vars[1..]);
  }

  /** One step of the loop: the first definition parsed is put into `acc`. */
  lemma ParseVariablesStep(defs: seq<(string, Value)>, acc: Assoc.Table<VariableDefinition>, d: VariableDefinition)
    requires |defs| > 0 && ParseVariable(defs[0].1) == Success(d)
    ensures ParseVariables(defs, acc) == ParseVariables(defs[1..], Assoc.Put(acc, defs[0].0, d))
  {
  }

  /** In a table without repeated keys, the first key of the second part is
      not a key of the first. */
  lemma DistinctPrefixKey(acc: Assoc.Table<VariableDefinition>, vars: Assoc.Table<VariableDefinition>)
    requires |vars| > 0 && Assoc.Distinct(acc + vars)
    ensures !Assoc.HasKey(acc, vars[0].0)
  {
    if Assoc.HasKey(acc, vars[0].0) {
      var i := Assoc.IndexOfKey(acc, vars[0].0);
      Assoc.DistinctAt(acc + vars, i, |acc|);
    }
  }

  lemma MetadataOfDocument(p: Prompt)
    ensures ParseMetadata(PromptDocument(p)) == Success(p.metadata)
  {
    var doc := PromptDocument(p);
    FieldNamesDiffer();
    Assoc.GetFirst(doc, 0);
    Assoc.GetFirst(doc, 1);
    Assoc.GetFirst(doc, 2);
    Assoc.GetFirst(doc, 3);
    Assoc.GetFirst(doc, 4);
    assert StringItems(StringValues(p.metadata.tags)) == p.metadata.tags;
  }

  lemma BodyOfDocument(p: Prompt)
    ensures Lookup(PromptDocument(p), "template", Str("")) == Str(p.template)
    ensures Lookup(PromptDocument(p), "variables", Dict([])) == Dict(VariableDocuments(p.variables))
  {
    var doc := PromptDocument(p);
    FieldNamesDiffer();
    Assoc.GetFirst(doc, 5);
    Assoc.GetFirst(doc, 6);
  }

  /** Writing a prompt out as its document and parsing it back gives the same
      prompt, provided the template is not empty. */
  lemma ParseYamlRoundTrip(p: Prompt)
    requires WellFormed(p) && p.template != ""
    ensures ParseYaml(PromptDocument(p)) == Success(p)
  {
    MetadataOfDocument(p);
    BodyOfDocument(p);
    assert [] + p.variables == p.variables;
    ParseVariableDocuments(p.variables, []);
  }

  // ---------------------------------------------------------------------
  // Finding the prompt file

  /** What opening a path finds: a parsed YAML document, or YAML that does
      not parse. */
  datatype FileContent = Document(doc: Value) | YamlError(detail: string)

  /** The file system: the current directory (an absolute location), the
      files with their contents and the directories, by absolute location. */
  datatype FileSystem = FileSystem(
    cwd: seq<string>,
    files: map<seq<string>, FileContent>,
    dirs: set<seq<string>>)

  /** `path.exists()`. */
  predicate Exists(fs: FileSystem, p: Path) {
    Resolve(fs.cwd, p) in fs.files || Resolve(fs.cwd, p) in fs.dirs
  }

  /** The three places a prompt path may name: `<path>.yaml`, `<path>.yml` and
      `<path>/index.yaml`, in that order. */
  function Candidates(dir: Path, promptPath: string): (cs: seq<Path>)
    ensures |cs| == 3
  {
    [JoinPath(dir, promptPath + ".yaml"), JoinPath(dir, promptPath + ".yml"), JoinPath(JoinPath(dir, promptPath), "index.yaml")]
  }

  /** Index of the first candidate that exists, `|cs|` when none does. */
  function FirstExisting(fs: FileSystem, cs: seq<Path>): (k: nat)
    ensures k <= |cs|
    ensures k < |cs| ==> Exists(fs, cs[k])
    ensures forall j :: 0 <= j < k ==> !Exists(fs, cs[j])
  {
    if |cs| == 0 then 0 else if Exists(fs, cs[0]) then 0 else 1 + FirstExisting(fs, cs[1..])
  }

  const EscapeMessage := "Invalid prompt path: path escapes prompts directory"

  /** `_resolve_prompt_file(prompt_path)`: the first candidate that exists,
      provided it lies inside the prompts directory once resolved. */
  function ResolvePromptFile(fs: FileSystem, dir: Path, promptPath: string): (r: Result<Path, Error>)
    ensures r.Success? ==> r.value in Candidates(dir, promptPath) && Exists(fs, r.value)
    ensures r.Success? ==> IsUnder(Resolve(fs.cwd, r.value), Resolve(fs.cwd, dir))
    ensures r.Success? ==> r.value == Candidates(dir, promptPath)[FirstExisting(fs, Candidates(dir, promptPath))]
    ensures r.Failure? && r.error.PromptNotFound? <==>
      forall j :: 0 <= j < 3 ==> !Exists(fs, Candidates(dir, promptPath)[j])
    ensures r.Failure? ==> r.error.PromptNotFound? || r.error == PromptValidation(EscapeMessage)
    ensures var k := FirstExisting(fs, Candidates(dir, promptPath));
      k < 3 ==> (r.Success? <==> IsUnder(Resolve(fs.cwd, Candidates(dir, promptPath)[k]), Resolve(fs.cwd, dir)))
  {
    var cs := Candidates(dir, promptPath);
    var k := FirstExisting(fs, cs);
    if k == 3 then
      Failure(PromptNotFound(
        "Prompt not found: " + promptPath + ". Tried: "
          + ToString(cs[0]) + ", " + ToString(cs[1]) + ", " + ToString(cs[2])))
    else if !IsUnder(Resolve(fs.cwd, cs[k]), Resolve(fs.cwd, dir)) then
      Failure(PromptValidation(EscapeMessage))
    else Success(cs[k])
  }

  /** Opening and parsing the resolved file. */
  function ReadPrompt(fs: FileSystem, file: Path): (r: Result<Prompt, Error>)
    requires Exists(fs, file)
    ensures Resolve(fs.cwd, file) !in fs.files ==> r.Failure? && r.error.OsError?
    ensures r.Success? ==> fs.files[Resolve(fs.cwd, file)].Document?
    ensures r.Success? ==> fs.files[Resolve(fs.cwd, file)].doc.Dict?
    ensures r.Success? ==> ParseYaml(fs.files[Resolve(fs.cwd, file)].doc.entries) == r
    ensures r.Failure? ==> !r.error.PromptNotFound?
    ensures var loc := Resolve(fs.cwd, file);
      loc in fs.files && fs.files[loc].Document? && fs.files[loc].doc.Dict? ==>
        r == ParseYaml(fs.files[loc].doc.entries)
    ensures var loc := Resolve(fs.cwd, file);
      loc in fs.files && fs.files[loc].YamlError? ==>
        r == Failure(PromptValidation("Invalid YAML in prompt file: " + fs.files[loc].detail))
    ensures var loc := Resolve(fs.cwd, file);
      loc in fs.files && fs.files[loc].Document? && !fs.files[loc].doc.Dict? ==>
        r == Failure(PromptValidation("Prompt YAML must be a dictionary, got <class '" + TypeName(fs.files[loc].doc) + "'>"))
  {
    var loc := Resolve(fs.cwd, file);
    if loc !in fs.files then Failure(OsError("[Errno 21] Is a directory: '" + ToString(file) + "'"))
    else
      match fs.files[loc]
      case YamlError(d) => Failure(PromptValidation("Invalid YAML in prompt file: " + d))
      case Document(v) =>
        if !v.Dict? then
          Failure(PromptValidation("Prompt YAML must be a dictionary, got <class '" + TypeName(v) + "'>"))
        else ParseYaml(v.entries)
  }

  /** Resolving then reading, without the cache. */
  function LoadFresh(fs: FileSystem, dir: Path, promptPath: string): (r: Result<Prompt, Error>)
    ensures r.Success? ==> WellFormed(r.value)
    ensures r.Failure? && r.error.PromptNotFound? <==>
      forall j :: 0 <= j < 3 ==> !Exists(fs, Candidates(dir, promptPath)[j])
    ensures ResolvePromptFile(fs, dir, promptPath).Failure? ==> r == Failure(ResolvePromptFile(fs, dir, promptPath).error)
    ensures ResolvePromptFile(fs, dir, promptPath).Success? ==> r == ReadPrompt(fs, ResolvePromptFile(fs, dir, promptPath).value)
  {
    match ResolvePromptFile(fs, dir, promptPath)
    case Failure(e) => Failure(e)
    case Success(file) => ReadPrompt(fs, file)
  }

  /** A prompt path without `..` segments that names an existing
      `<path>.yaml` resolves to it, so a plain name never trips the
      escape check. */
  lemma PlainPathResolves(fs: FileSystem, dir: Path, promptPath: string)
    requires !(|promptPath| > 0 && promptPath[0] == '/')
    requires NoParentRefs(Parse(promptPath + ".yaml").parts)
    requires Exists(fs, JoinPath(dir, promptPath + ".yaml"))
    ensures ResolvePromptFile(fs, dir, promptPath) == Success(JoinPath(dir, promptPath + ".yaml"))
  {
    assert (promptPath + ".yaml")[..|promptPath|] == promptPath;
    assert !(|promptPath + ".yaml"| > 0 && (promptPath + ".yaml")[0] == '/');
    JoinStaysUnder(fs.cwd, dir, promptPath + ".yaml");
  }

  /** A prompt written as the document of `<dir>/<path>.yaml`, under a plain
      relative path, loads back as that prompt. */
  lemma LoadRoundTrip(fs: FileSystem, dir: Path, promptPath: string, p: Prompt)
    requires WellFormed(p) && p.template != ""
    requires !(|promptPath| > 0 && promptPath[0] == '/')
    requires NoParentRefs(Parse(promptPath + ".yaml").parts)
    requires Resolve(fs.cwd, JoinPath(dir, promptPath + ".yaml")) in fs.files
    requires fs.files[Resolve(fs.cwd, JoinPath(dir, promptPath + ".yaml"))] == Document(Dict(PromptDocument(p)))
    ensures LoadFresh(fs, dir, promptPath) == Success(p)
  {
    PlainPathResolves(fs, dir, promptPath);
    ParseYamlRoundTrip(p);
  }

  // ---------------------------------------------------------------------
  // The cache

  /** The loader: its prompts directory, the cache switch and lifetime (in
      seconds), and the cache from key to prompt and the time it was read. */
  datatype LoaderState = LoaderState(
    dir: Path,
    cacheEnabled: bool,
    ttl: int,
    cache: map<string, (Prompt, int)>)

  /** A new loader with an empty cache. */
  function NewLoader(dir: string, cacheEnabled: bool, ttl: int): (s: LoaderState)
    ensures s.cache == map[]
  {
    LoaderState(Parse(dir), cacheEnabled, ttl, map[])
  }

  /** `_get_cache_key(prompt_path)`: the joined path as text. */
  function CacheKey(dir: Path, promptPath: string): string {
    ToString(JoinPath(dir, promptPath))
  }

  /** `_is_cache_valid(entry)` at time `now`. */
  predicate EntryFresh(s: LoaderState, entry: (Prompt, int), now: int) {
    s.cacheEnabled && now - entry.1 < s.ttl
  }

  /** A load served from the cache. */
  predicate CacheHit(s: LoaderState, promptPath: string, useCache: bool, now: int) {
    var key := CacheKey(s.dir, promptPath);
    useCache && s.cacheEnabled && key in s.cache && EntryFresh(s, s.cache[key], now)
  }

  /** `load(prompt_path, use_cache)` at time `now`: the prompt (or the error)
      and the loader afterwards. */
  function Load(s: LoaderState, fs: FileSystem, promptPath: string, useCache: bool, now: int)
    : (out: (Result<Prompt, Error>, LoaderState))
    ensures CacheHit(s, promptPath, useCache, now) ==>
      out == (Success(s.cache[CacheKey(s.dir, promptPath)].0), s)
    ensures !CacheHit(s, promptPath, useCache, now) ==> out.0 == LoadFresh(fs, s.dir, promptPath)
    ensures out.0.Failure? || !s.cacheEnabled || CacheHit(s, promptPath, useCache, now) ==> out.1 == s
    ensures out.0.Success? && s.cacheEnabled && !CacheHit(s, promptPath, useCache, now) ==>
      out.1 == s.(cache := s.cache[CacheKey(s.dir, promptPath) := (out.0.value, now)])
  {
    var key := CacheKey(s.dir, promptPath);
    if CacheHit(s, promptPath, useCache, now) then (Success(s.cache[key].0), s)
    else
      var r := LoadFresh(fs, s.dir, promptPath);
      if r.Success? && s.cacheEnabled then (r, s.(cache := s.cache[key := (r.value, now)]))
      else (r, s)
  }

  /** `clear_cache()`. */
  function ClearCache(s: LoaderState): (t: LoaderState)
    ensures t.cache == map[]
    ensures t == s.(cache := map[])
  {
    s.(cache := map[])
  }

  /** `invalidate_cache(prompt_path)`: one key, or everything for `None`. */
  function InvalidateCache(s: LoaderState, promptPath: Option<string>): (t: LoaderState)
    ensures t.dir == s.dir && t.cacheEnabled == s.cacheEnabled && t.ttl == s.ttl
    ensures promptPath.None? ==> t.cache == map[]
    ensures promptPath.Some? ==> CacheKey(s.dir, promptPath.value) !in t.cache
    ensures promptPath.Some? ==> forall k :: k != CacheKey(s.dir, promptPath.value) ==>
      (k in t.cache <==> k in s.cache) && (k in t.cache ==> t.cache[k] == s.cache[k])
  {
    if promptPath.None? then ClearCache(s)
    else s.(cache := s.cache - {CacheKey(s.dir, promptPath.value)})
  }

  /** Within the lifetime, a second load returns what the first one read,
      whatever has happened to the file since. */
  lemma SecondLoadWithinTtlIsCached(
    s: LoaderState, fs: FileSystem, fs': FileSystem, promptPath: string, t0: int, t1: int)
    requires s.cacheEnabled
    requires Load(s, fs, promptPath, true, t0).0.Success?
    requires t1 - t0 < s.ttl
    requires CacheHit(s, promptPath, true, t0) ==> t1 - s.cache[CacheKey(s.dir, promptPath)].1 < s.ttl
    ensures Load(Load(s, fs, promptPath, true, t0).1, fs', promptPath, true, t1).0
      == Load(s, fs, promptPath, true, t0).0
  {
  }

  /** Once the lifetime has passed, a load reads the file system again. */
  lemma ExpiredEntryIsReread(s: LoaderState, fs: FileSystem, promptPath: string, useCache: bool, now: int)
    requires CacheKey(s.dir, promptPath) in s.cache
    requires now - s.cache[CacheKey(s.dir, promptPath)].1 >= s.ttl
    ensures Load(s, fs, promptPath, useCache, now).0 == LoadFresh(fs, s.dir, promptPath)
  {
  }

  /** After `invalidate_cache(p)`, loading `p` reads the file system. */
  lemma InvalidatedPathIsReread(s: LoaderState, fs: FileSystem, promptPath: string, useCache: bool, now: int)
    ensures Load(InvalidateCache(s, Some(promptPath)), fs, promptPath, useCache, now).0
      == LoadFresh(fs, s.dir, promptPath)
  {
  }

  /** A lifetime of zero (or less) never serves a load from the cache, as
      long as no entry was stored later than `now`. */
  lemma ZeroTtlNeverHits(s: LoaderState, fs: FileSystem, promptPath: string, useCache: bool, now: int)
    requires s.ttl <= 0
    requires forall k :: k in s.cache ==> s.cache[k].1 <= now
    ensures !CacheHit(s, promptPath, useCache, now)
    ensures Load(s, fs, promptPath, useCache, now).0 == LoadFresh(fs, s.dir, promptPath)
  {
  }

  /** With the cache switched off nothing is stored and nothing is served
      from it. */
  lemma DisabledCacheUnused(s: LoaderState, fs: FileSystem, promptPath: string, useCache: bool, now: int)
    requires !s.cacheEnabled
    ensures Load(s, fs, promptPath, useCache, now) == (LoadFresh(fs, s.dir, promptPath), s)
  {
  }
}
