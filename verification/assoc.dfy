/** Python's insertion-ordered `dict`, as a sequence of key/value pairs.
    Lookup finds the first entry with the key; assignment to an existing key
    keeps its position, a new key goes to the end; deletion drops the key. */
module Assoc {
  import opened Wrappers

  type Table<V> = seq<(string, V)>

  /** `t.get(k)`: the value of the first entry with key `k`. */
  function Get<V>(t: Table<V>, k: string): Option<V> {
    if |t| == 0 then None
    else if t[0].0 == k then Some(t[0].1)
    else Get(t[1..], k)
  }

  predicate HasKey<V>(t: Table<V>, k: string) {
    Get(t, k).Some?
  }

  /** Position of the first entry with key `k`, `|t|` when absent. */
  function IndexOfKey<V>(t: Table<V>, k: string): (i: nat)
    ensures i <= |t|
    ensures i < |t| <==> HasKey(t, k)
    ensures i < |t| ==> t[i] == (k, Get(t, k).value)
    ensures forall j :: 0 <= j < i ==> t[j].0 != k
  {
    if |t| == 0 then 0 else if t[0].0 == k then 0 else 1 + IndexOfKey(t[1..], k)
  }

  /** Keys are pairwise different: every Python dict satisfies this. */
  predicate Distinct<V>(t: Table<V>) {
    |t| == 0 || (!HasKey(t[1..], t[0].0) && Distinct(t[1..]))
  }

  lemma HasKeyAt<V>(t: Table<V>, i: int)
    requires 0 <= i < |t|
    ensures HasKey(t, t[i].0)
  {
    if i > 0 && t[0].0 != t[i].0 {
      assert t[1..][i - 1] == t[i];
      HasKeyAt(t[1..], i - 1);
    }
  }

  /** The index form of `Distinct`. */
  lemma DistinctAt<V>(t: Table<V>, i: int, j: int)
    requires Distinct(t)
    requires 0 <= i < j < |t|
    ensures t[i].0 != t[j].0
  {
    if i == 0 {
      assert t[1..][j - 1] == t[j];
      HasKeyAt(t[1..], j - 1);
    } else {
      assert t[1..][i - 1] == t[i] && t[1..][j - 1] == t[j];
      DistinctAt(t[1..], i - 1, j - 1);
    }
  }

  function Keys<V>(t: Table<V>): (ks: seq<string>)
    ensures |ks| == |t|
    ensures forall i :: 0 <= i < |t| ==> ks[i] == t[i].0
  {
    if |t| == 0 then [] else [t[0].0] + Keys(t[1..])
  }

  /** `set(t.keys())`. */
  function KeySet<V>(t: Table<V>): (s: set<string>)
    ensures forall i :: 0 <= i < |t| ==> t[i].0 in s
    ensures forall k :: k in s <==> HasKey(t, k)
  {
    var s := set i | 0 <= i < |t| :: t[i].0;
    forall k | k in s ensures HasKey(t, k) {
      var i :| 0 <= i < |t| && t[i].0 == k;
      HasKeyAt(t, i);
    }
    forall k | HasKey(t, k) ensures k in s {
      var i := IndexOfKey(t, k);
      assert t[i].0 == k;
    }
    s
  }

  /** In a dict, the entry holding a key is the one `Get` returns. */
  lemma GetDistinct<V>(t: Table<V>, i: int)
    requires Distinct(t)
    requires 0 <= i < |t|
    ensures Get(t, t[i].0) == Some(t[i].1)
  {
    if i > 0 {
      assert t[1..][i - 1] == t[i];
      if t[0].0 == t[i].0 {
        DistinctAt(t, 0, i);
      }
      GetDistinct(t[1..], i - 1);
    }
  }

  /** `t[k] = v`. */
  function Put<V>(t: Table<V>, k: string, v: V): (r: Table<V>)
    ensures Get(r, k) == Some(v)
    ensures forall k' :: k' != k ==> Get(r, k') == Get(t, k')
    ensures Distinct(t) ==> Distinct(r)
    ensures HasKey(t, k) ==> Keys(r) == Keys(t)
    ensures !HasKey(t, k) ==> Keys(r) == Keys(t) + [k]
  {
    if |t| == 0 then [(k, v)]
    else if t[0].0 == k then
      var r := [(k, v)] + t[1..];
      assert r[1..] == t[1..];
      r
    else
      var r := [t[0]] + Put(t[1..], k, v);
      assert r[1..] == Put(t[1..], k, v);
      r
  }

  /** `t.pop(k, None)`. */
  function Remove<V>(t: Table<V>, k: string): (r: Table<V>)
    ensures !HasKey(r, k)
    ensures forall k' :: k' != k ==> Get(r, k') == Get(t, k')
    ensures Distinct(t) ==> Distinct(r)
    ensures |r| <= |t|
  {
    if |t| == 0 then []
    else if t[0].0 == k then Remove(t[1..], k)
    else [t[0]] + Remove(t[1..], k)
  }

  /** `t.update(u)`: every entry of `u` is assigned in turn. */
  function Update<V>(t: Table<V>, u: Table<V>): (r: Table<V>)
    ensures Distinct(u) ==> forall k :: Get(r, k) == (if HasKey(u, k) then Get(u, k) else Get(t, k))
    ensures Distinct(t) ==> Distinct(r)
    decreases |u|
  {
    if |u| == 0 then t else Update(Put(t, u[0].0, u[0].1), u[1..])
  }

  /** Moving the first entry of `b` to the end of `a` keeps the table. */
  lemma MoveFirst<V>(a: Table<V>, b: Table<V>)
    requires |b| > 0
    ensures (a + [b[0]]) + b[1..] == a + b
  {
    assert b == [b[0]] + b[1..];
  }

  /** Splitting off the first entry commutes with appending. */
  lemma ConsAppend<V>(t: Table<V>, u: Table<V>)
    requires |t| > 0
    ensures [t[0]] + (t[1..] + u) == t + u
  {
    assert t == [t[0]] + t[1..];
  }

  /** Assigning a new key appends it. */
  lemma {:induction false} PutAbsent<V>(t: Table<V>, k: string, v: V)
    requires !HasKey(t, k)
    ensures Put(t, k, v) == t + [(k, v)]
  {
    if |t| > 0 {
      PutAbsent(t[1..], k, v);
      assert Put(t, k, v) == [t[0]] + Put(t[1..], k, v);
      ConsAppend(t, [(k, v)]);
    }
  }

  /** A key of `t + u` is a key of `t` or of `u`. */
  lemma HasKeyAppend<V>(t: Table<V>, u: Table<V>, k: string)
    ensures HasKey(t + u, k) <==> HasKey(t, k) || HasKey(u, k)
  {
    if |t| > 0 {
      assert (t + u)[1..] == t[1..] + u;
      HasKeyAppend(t[1..], u, k);
    } else {
      assert t + u == u;
    }
  }

  /** Tables with the same keys in the same order have the same key set. */
  lemma {:induction false} HasKeySameKeys<V, U>(t: Table<V>, u: Table<U>, k: string)
    requires |t| == |u| && forall i :: 0 <= i < |t| ==> t[i].0 == u[i].0
    ensures HasKey(t, k) <==> HasKey(u, k)
  {
    if |t| > 0 {
      assert forall i :: 0 <= i < |t[1..]| ==> t[1..][i] == t[i + 1] && u[1..][i] == u[i + 1];
      HasKeySameKeys(t[1..], u[1..], k);
    }
  }

  /** Distinctness depends on the keys only. */
  lemma {:induction false} DistinctSameKeys<V, U>(t: Table<V>, u: Table<U>)
    requires |t| == |u| && forall i :: 0 <= i < |t| ==> t[i].0 == u[i].0
    requires Distinct(t)
    ensures Distinct(u)
  {
    if |t| > 0 {
      assert forall i :: 0 <= i < |t[1..]| ==> t[1..][i] == t[i + 1] && u[1..][i] == u[i + 1];
      DistinctSameKeys(t[1..], u[1..]);
      HasKeySameKeys(t[1..], u[1..], t[0].0);
    }
  }

  /** The entry at `i` is found when no earlier entry has its key. */
  lemma {:induction false} GetFirst<V>(t: Table<V>, i: int)
    requires 0 <= i < |t|
    requires forall j :: 0 <= j < i ==> t[j].0 != t[i].0
    ensures Get(t, t[i].0) == Some(t[i].1)
  {
    if i > 0 {
      assert t[1..][i - 1] == t[i];
      GetFirst(t[1..], i - 1);
    }
  }

  /** The first key of `t`, in order, that belongs to `ks`: the argument a
      call reports when `**t` binds a parameter a second time. */
  function FirstKeyIn<V>(t: Table<V>, ks: set<string>): (r: Option<string>)
    ensures r.None? <==> forall k :: k in ks ==> !HasKey(t, k)
    ensures r.Some? ==> r.value in ks && HasKey(t, r.value)
    ensures r.Some? ==> forall j :: 0 <= j < IndexOfKey(t, r.value) ==> t[j].0 !in ks
  {
    if |t| == 0 then None
    else if t[0].0 in ks then Some(t[0].0)
    else
      var r := FirstKeyIn(t[1..], ks);
      assert forall k :: HasKey(t, k) && k != t[0].0 ==> HasKey(t[1..], k);
      r
  }
}
