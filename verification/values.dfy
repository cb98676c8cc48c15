/** The Python values that reach the core from YAML documents, JSON bodies and
    variable defaults, with the parts of Python's behaviour the core relies
    on: truthiness, `str()` and `type()`. */
module Values {
  import opened Wrappers
  import opened Strings
  import Assoc

  /** `None`, `bool`, `int`, `str`, `list` and `dict` with string keys (kept in
      insertion order). */
  datatype Value =
    | Null
    | Bool(b: bool)
    | Int(i: int)
    | Str(s: string)
    | List(items: seq<Value>)
    | Dict(entries: seq<(string, Value)>)

  /** `bool(v)`. */
  predicate Truthy(v: Value) {
    match v
    case Null => false
    case Bool(b) => b
    case Int(i) => i != 0
    case Str(s) => |s| > 0
    case List(xs) => |xs| > 0
    case Dict(es) => |es| > 0
  }

  /** `repr(v)`; strings are always shown in single quotes. */
  function Repr(v: Value): string
    decreases v
  {
    match v
    case Null => "None"
    case Bool(b) => if b then "True" else "False"
    case Int(i) => IntToString(i)
    case Str(s) => "'" + s + "'"
    case List(xs) => "[" + ReprItems(xs) + "]"
    case Dict(es) => "{" + ReprEntries(es) + "}"
  }

  function ReprItems(xs: seq<Value>): string
    decreases xs
  {
    if |xs| == 0 then ""
    else Repr(xs[0]) + (if |xs| == 1 then "" else ", " + ReprItems(xs[1..]))
  }

  function ReprEntries(es: seq<(string, Value)>): string
    decreases es
  {
    if |es| == 0 then ""
    else
      assert es[0] in es && es[0].1 < es[0];
      "'" + es[0].0 + "': " + Repr(es[0].1)
        + (if |es| == 1 then "" else ", " + ReprEntries(es[1..]))
  }

  /** A list of strings as a value. */
  function StringValues(xs: seq<string>): (r: seq<Value>)
    ensures |r| == |xs|
    ensures forall i :: 0 <= i < |xs| ==> r[i] == Str(xs[i])
  {
    if |xs| == 0 then [] else [Str(xs[0])] + StringValues(xs[1..])
  }

  /** `str(v)`: the text itself for a string, `repr` otherwise. */
  function PyStr(v: Value): (r: string)
    ensures v.Str? ==> r == v.s
  {
    if v.Str? then v.s else Repr(v)
  }

  /** `type(v).__name__`. */
  function TypeName(v: Value): string {
    match v
    case Null => "NoneType"
    case Bool(_) => "bool"
    case Int(_) => "int"
    case Str(_) => "str"
    case List(_) => "list"
    case Dict(_) => "dict"
  }

  /** `int(b)` for a bool: `True` is 1 and `False` is 0. */
  function BoolInt(b: bool): int {
    if b then 1 else 0
  }

  /** The value a dict holds for a key it has. */
  function EntryValue(es: seq<(string, Value)>, k: string): (v: Value)
    requires Assoc.HasKey(es, k)
    ensures v < Dict(es)
    ensures Assoc.Get(es, k) == Some(v)
  {
    var i := Assoc.IndexOfKey(es, k);
    assert es[i] in es;
    es[i].1
  }

  /** Python's `a == b`: a bool equals the int it converts to, lists are
      equal element by element, and dicts are equal when they have the same
      keys with equal values, whatever the order of insertion. */
  predicate PyEqual(a: Value, b: Value)
    decreases a
  {
    match a
    case Null => b.Null?
    case Bool(x) => (b.Bool? && b.b == x) || (b.Int? && b.i == BoolInt(x))
    case Int(i) => (b.Int? && b.i == i) || (b.Bool? && i == BoolInt(b.b))
    case Str(s) => b.Str? && b.s == s
    case List(xs) =>
      && b.List? && |xs| == |b.items|
      && forall i :: 0 <= i < |xs| ==> PyEqual(xs[i], b.items[i])
    case Dict(es) =>
      && b.Dict? && Assoc.KeySet(es) == Assoc.KeySet(b.entries)
      && forall k :: k in Assoc.KeySet(es) ==> PyEqual(EntryValue(es, k), EntryValue(b.entries, k))
  }

  /** Every value equals itself. */
  lemma {:induction false} PyEqualReflexive(v: Value)
    ensures PyEqual(v, v)
    decreases v
  {
    match v
    case List(xs) =>
      forall i | 0 <= i < |xs| ensures PyEqual(xs[i], xs[i]) {
        PyEqualReflexive(xs[i]);
      }
    case Dict(es) =>
      forall k | k in Assoc.KeySet(es) ensures PyEqual(EntryValue(es, k), EntryValue(es, k)) {
        PyEqualReflexive(EntryValue(es, k));
      }
    case _ =>
  }

  /** Equality reads the same both ways. */
  lemma {:induction false} PyEqualSymmetric(a: Value, b: Value)
    requires PyEqual(a, b)
    ensures PyEqual(b, a)
    decreases a
  {
    match a
    case List(xs) =>
      forall i | 0 <= i < |xs| ensures PyEqual(b.items[i], xs[i]) {
        PyEqualSymmetric(xs[i], b.items[i]);
      }
    case Dict(es) =>
      forall k | k in Assoc.KeySet(b.entries) ensures PyEqual(EntryValue(b.entries, k), EntryValue(es, k)) {
        PyEqualSymmetric(EntryValue(es, k), EntryValue(b.entries, k));
      }
    case _ =>
  }

  /** `{k1: v1, k2: v2} == {k2: v2, k1: v1}`: insertion order does not
      matter to dict equality. */
  lemma DictOrderIrrelevant(k1: string, v1: Value, k2: string, v2: Value)
    requires k1 != k2
    ensures PyEqual(Dict([(k1, v1), (k2, v2)]), Dict([(k2, v2), (k1, v1)]))
  {
    var a, b := [(k1, v1), (k2, v2)], [(k2, v2), (k1, v1)];
    PairKeys(k1, v1, k2, v2);
    PairKeys(k2, v2, k1, v1);
    assert EntryValue(a, k1) == v1 == EntryValue(b, k1);
    assert EntryValue(a, k2) == v2 == EntryValue(b, k2);
    PyEqualReflexive(v1);
    PyEqualReflexive(v2);
  }

  /** `True == 1` and `False == 0`, in a list as well as alone. */
  lemma BoolEqualsInt(x: bool)
    ensures PyEqual(Bool(x), Int(BoolInt(x))) && PyEqual(Int(BoolInt(x)), Bool(x))
    ensures PyEqual(List([Bool(x)]), List([Int(BoolInt(x))]))
  {
  }

  /** The keys of a two-entry dict. */
  lemma PairKeys(k1: string, v1: Value, k2: string, v2: Value)
    ensures Assoc.KeySet([(k1, v1), (k2, v2)]) == {k1, k2}
  {
    var t := [(k1, v1), (k2, v2)];
    assert t[1..] == [(k2, v2)] && t[1..][1..] == [];
    forall k ensures k in Assoc.KeySet(t) <==> k == k1 || k == k2 {
      assert Assoc.HasKey(t, k) <==> k == k1 || Assoc.HasKey(t[1..], k);
    }
  }
}
