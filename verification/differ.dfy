/** Metadata comparison between two prompts. */
module Differ {
  import opened Strings
  import opened Prompts
  import opened Wrappers
  import opened Values
  import Assoc

  /** The result of `compare_metadata`: one flag per metadata field, the
      variable names added and removed, and for each variable defined on both
      sides with a different definition, the old and new definitions. */
  datatype Comparison = Comparison(
    nameChanged: bool,
    versionChanged: bool,
    descriptionChanged: bool,
    authorChanged: bool,
    tagsChanged: bool,
    variablesAdded: set<string>,
    variablesRemoved: set<string>,
    variablesChanged: map<string, (VariableDefinition, VariableDefinition)>)

  function TagSet(m: PromptMetadata): set<string> {
    set t | t in m.tags
  }

  /** The comparison of two prompts that differ in nothing it looks at. */
  const Unchanged := Comparison(false, false, false, false, false, {}, {}, map[])

  /** The two prompts agree on every field the comparison looks at: the tags
      as sets, the variables name by name under Python's `==`. */
  ghost predicate Same(p1: Prompt, p2: Prompt) {
    && p1.metadata.name == p2.metadata.name
    && p1.metadata.version == p2.metadata.version
    && p1.metadata.description == p2.metadata.description
    && p1.metadata.author == p2.metadata.author
    && (forall t :: t in p1.metadata.tags <==> t in p2.metadata.tags)
    && (forall x :: Assoc.HasKey(p1.variables, x) <==> Assoc.HasKey(p2.variables, x))
    && (forall x :: Assoc.HasKey(p1.variables, x) && Assoc.HasKey(p2.variables, x) ==>
          DefinitionEqual(Assoc.Get(p1.variables, x).value, Assoc.Get(p2.variables, x).value))
  }

  /** `compare_metadata(p1, p2)`. */
  function CompareMetadata(p1: Prompt, p2: Prompt): (r: Comparison)
    ensures r.nameChanged <==> p1.metadata.name != p2.metadata.name
    ensures r.versionChanged <==> p1.metadata.version != p2.metadata.version
    ensures r.descriptionChanged <==> p1.metadata.description != p2.metadata.description
    ensures r.authorChanged <==> p1.metadata.author != p2.metadata.author
    ensures forall x :: x in r.variablesAdded <==>
      Assoc.HasKey(p2.variables, x) && !Assoc.HasKey(p1.variables, x)
    ensures forall x :: x in r.variablesRemoved <==>
      Assoc.HasKey(p1.variables, x) && !Assoc.HasKey(p2.variables, x)
    ensures forall x :: x in r.variablesChanged <==>
      Assoc.HasKey(p1.variables, x) && Assoc.HasKey(p2.variables, x)
      && !DefinitionEqual(Assoc.Get(p1.variables, x).value, Assoc.Get(p2.variables, x).value)
    ensures forall x :: x in r.variablesChanged ==>
      Assoc.HasKey(p1.variables, x) && Assoc.HasKey(p2.variables, x) &&
      r.variablesChanged[x] == (Assoc.Get(p1.variables, x).value, Assoc.Get(p2.variables, x).value)
    ensures r.tagsChanged <==> exists t :: (t in p1.metadata.tags) != (t in p2.metadata.tags)
  {
    var k1 := Assoc.KeySet(p1.variables);
    var k2 := Assoc.KeySet(p2.variables);
    var tagsChanged := TagSet(p1.metadata) != TagSet(p2.metadata);
    assert tagsChanged <==> exists t :: (t in p1.metadata.tags) != (t in p2.metadata.tags) by {
      if tagsChanged {
        var t :| t in TagSet(p1.metadata) - TagSet(p2.metadata) || t in TagSet(p2.metadata) - TagSet(p1.metadata);
        assert (t in p1.metadata.tags) != (t in p2.metadata.tags);
      }
      if exists t :: (t in p1.metadata.tags) != (t in p2.metadata.tags) {
        var t :| (t in p1.metadata.tags) != (t in p2.metadata.tags);
        assert (t in TagSet(p1.metadata)) != (t in TagSet(p2.metadata));
      }
    }
    Comparison(
      p1.metadata.name != p2.metadata.name,
      p1.metadata.version != p2.metadata.version,
      p1.metadata.description != p2.metadata.description,
      p1.metadata.author != p2.metadata.author,
      tagsChanged,
      k2 - k1,
      k1 - k2,
      map x | x in k1 * k2 && !DefinitionEqual(Assoc.Get(p1.variables, x).value, Assoc.Get(p2.variables, x).value)
        :: (Assoc.Get(p1.variables, x).value, Assoc.Get(p2.variables, x).value))
  }

  /** A prompt compared with itself shows no change. */
  lemma CompareWithItself(p: Prompt)
    ensures CompareMetadata(p, p) == Unchanged
  {
    var r := CompareMetadata(p, p);
    forall x | Assoc.HasKey(p.variables, x) ensures x !in r.variablesChanged {
      DefinitionEqualLaws(Assoc.Get(p.variables, x).value, Assoc.Get(p.variables, x).value);
    }
    assert r.variablesChanged == map[];
  }

  /** Swapping the prompts swaps added with removed and old with new. */
  lemma CompareSwapped(p1: Prompt, p2: Prompt)
    ensures CompareMetadata(p2, p1).variablesAdded == CompareMetadata(p1, p2).variablesRemoved
    ensures CompareMetadata(p2, p1).variablesRemoved == CompareMetadata(p1, p2).variablesAdded
    ensures CompareMetadata(p2, p1).variablesChanged.Keys == CompareMetadata(p1, p2).variablesChanged.Keys
    ensures forall x :: x in CompareMetadata(p1, p2).variablesChanged ==>
      CompareMetadata(p2, p1).variablesChanged[x].0 == CompareMetadata(p1, p2).variablesChanged[x].1
    ensures CompareMetadata(p2, p1).nameChanged == CompareMetadata(p1, p2).nameChanged
    ensures CompareMetadata(p2, p1).versionChanged == CompareMetadata(p1, p2).versionChanged
    ensures CompareMetadata(p2, p1).descriptionChanged == CompareMetadata(p1, p2).descriptionChanged
    ensures CompareMetadata(p2, p1).authorChanged == CompareMetadata(p1, p2).authorChanged
    ensures CompareMetadata(p2, p1).tagsChanged == CompareMetadata(p1, p2).tagsChanged
  {
    forall x | Assoc.HasKey(p1.variables, x) && Assoc.HasKey(p2.variables, x)
      ensures DefinitionEqual(Assoc.Get(p1.variables, x).value, Assoc.Get(p2.variables, x).value)
          <==> DefinitionEqual(Assoc.Get(p2.variables, x).value, Assoc.Get(p1.variables, x).value)
    {
      DefinitionEqualLaws(Assoc.Get(p1.variables, x).value, Assoc.Get(p2.variables, x).value);
      DefinitionEqualLaws(Assoc.Get(p2.variables, x).value, Assoc.Get(p1.variables, x).value);
    }
  }

  /** The comparison reports nothing exactly when the four fields agree, the
      tags agree as sets and every name has the same definition on both
      sides. */
  lemma NoChangeIffSame(p1: Prompt, p2: Prompt)
    ensures CompareMetadata(p1, p2) == Unchanged <==> Same(p1, p2)
  {
    var r := CompareMetadata(p1, p2);
    if r == Unchanged {
      forall x ensures Assoc.HasKey(p1.variables, x) <==> Assoc.HasKey(p2.variables, x) {
        assert x !in r.variablesAdded && x !in r.variablesRemoved;
      }
      forall x | Assoc.HasKey(p1.variables, x) && Assoc.HasKey(p2.variables, x)
        ensures DefinitionEqual(Assoc.Get(p1.variables, x).value, Assoc.Get(p2.variables, x).value)
      {
        assert x !in r.variablesChanged;
      }
    }
    if Same(p1, p2) {
      assert r.variablesAdded == {} && r.variablesRemoved == {};
      assert r.variablesChanged == map[];
    }
  }

  /** A definition whose default is `1` on one side and `True` on the other
      is not reported as changed: Python finds the two defaults equal. */
  lemma TrueDefaultMatchesOne(p1: Prompt, p2: Prompt, x: string, d: VariableDefinition)
    requires Assoc.Get(p1.variables, x) == Some(d.(default := Int(1)))
    requires Assoc.Get(p2.variables, x) == Some(d.(default := Bool(true)))
    ensures x !in CompareMetadata(p1, p2).variablesChanged
    ensures x !in CompareMetadata(p1, p2).variablesAdded && x !in CompareMetadata(p1, p2).variablesRemoved
  {
  }
}
