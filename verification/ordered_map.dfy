/** An insertion-ordered map with string keys, the shape of a JavaScript
    `Map<string, V>` and of the string-keyed objects whose `Object.keys`
    order the chat hub iterates. An entry keeps the position at which its
    key was first set; setting an existing key replaces the value in place. */
module OrderedMap {
  import opened Wrappers

  /** No key occurs twice: the invariant every JavaScript map keeps. */
  ghost predicate UniqueKeys<V>(m: seq<(string, V)>) {
    forall i, j :: 0 <= i < j < |m| ==> m[i].0 != m[j].0
  }

  /** The position of the first entry whose key is `k`. */
  function IndexOf<V>(m: seq<(string, V)>, k: string): (r: Option<nat>)
    ensures r.Some? ==> r.value < |m| && m[r.value].0 == k
    ensures r.Some? ==> forall j :: 0 <= j < r.value ==> m[j].0 != k
    ensures r.None? ==> forall j :: 0 <= j < |m| ==> m[j].0 != k
    decreases |m|
  {
    if |m| == 0 then None
    else if m[0].0 == k then Some(0)
    else
      match IndexOf(m[1..], k)
      case None => None
      case Some(i) => Some(i + 1)
  }

  /** The first-occurrence characterisation determines `IndexOf`. */
  lemma IndexOfIs<V>(m: seq<(string, V)>, k: string, r: Option<nat>)
    requires r.Some? ==> r.value < |m| && m[r.value].0 == k
    requires r.Some? ==> forall j :: 0 <= j < r.value ==> m[j].0 != k
    requires r.None? ==> forall j :: 0 <= j < |m| ==> m[j].0 != k
    ensures IndexOf(m, k) == r
  {
  }

  /** `Map.prototype.has`. */
  predicate HasKey<V>(m: seq<(string, V)>, k: string) {
    IndexOf(m, k).Some?
  }

  /** `Map.prototype.get`: the value stored under `k`, if any. */
  function Get<V>(m: seq<(string, V)>, k: string): Option<V> {
    match IndexOf(m, k)
    case Some(i) => Some(m[i].1)
    case None => None
  }

  /** `Array.from(m.values())`: the values in insertion order. */
  function Values<V>(m: seq<(string, V)>): (vs: seq<V>)
    ensures |vs| == |m|
    ensures forall i :: 0 <= i < |m| ==> vs[i] == m[i].1
  {
    seq(|m|, i requires 0 <= i < |m| => m[i].1)
  }

  /** `Map.prototype.set`: replace the value of an existing key where it
      stands, or append a new entry at the end. */
  function Set<V>(m: seq<(string, V)>, k: string, v: V): (r: seq<(string, V)>)
    ensures Get(r, k) == Some(v)
    ensures forall k' :: k' != k ==> Get(r, k') == Get(m, k')
    ensures HasKey(m, k) ==> |r| == |m| && forall j :: 0 <= j < |m| ==> r[j].0 == m[j].0
    ensures !HasKey(m, k) ==> |r| == |m| + 1 && r[..|m|] == m && r[|m|] == (k, v)
    ensures UniqueKeys(m) ==> UniqueKeys(r)
  {
    match IndexOf(m, k)
    case Some(i) =>
      ReplaceKeepsIndexes(m, i, k, v);
      m[i := (k, v)]
    case None =>
      AppendKeepsIndexes(m, k, v);
      m + [(k, v)]
  }

  /** `Map.prototype.delete`: drop the entry of `k`, keeping the order of
      the others. */
  function Delete<V>(m: seq<(string, V)>, k: string): (r: seq<(string, V)>)
    ensures !HasKey(m, k) ==> r == m
    ensures HasKey(m, k) ==> |r| == |m| - 1
    ensures UniqueKeys(m) ==> UniqueKeys(r) && Get(r, k) == None
    ensures UniqueKeys(m) ==> forall k' :: k' != k ==> Get(r, k') == Get(m, k')
  {
    match IndexOf(m, k)
    case Some(i) =>
      RemoveKeepsOthers(m, i, k);
      m[..i] + m[i + 1..]
    case None => m
  }

  lemma ReplaceKeepsIndexes<V>(m: seq<(string, V)>, i: nat, k: string, v: V)
    requires i < |m| && m[i].0 == k
    ensures forall k' :: IndexOf(m[i := (k, v)], k') == IndexOf(m, k')
  {
    forall k' ensures IndexOf(m[i := (k, v)], k') == IndexOf(m, k') {
      IndexOfIs(m[i := (k, v)], k', IndexOf(m, k'));
    }
  }

  lemma AppendKeepsIndexes<V>(m: seq<(string, V)>, k: string, v: V)
    requires !HasKey(m, k)
    ensures IndexOf(m + [(k, v)], k) == Some(|m|)
    ensures forall k' :: k' != k ==> IndexOf(m + [(k, v)], k') == IndexOf(m, k')
  {
    IndexOfIs(m + [(k, v)], k, Some(|m|));
    forall k' | k' != k ensures IndexOf(m + [(k, v)], k') == IndexOf(m, k') {
      IndexOfIs(m + [(k, v)], k', IndexOf(m, k'));
    }
  }

  lemma RemoveKeepsOthers<V>(m: seq<(string, V)>, i: nat, k: string)
    requires IndexOf(m, k) == Some(i)
    ensures UniqueKeys(m) ==> forall k' :: k' != k ==> Get(m[..i] + m[i + 1..], k') == Get(m, k')
  {
    var r := m[..i] + m[i + 1..];
    assert forall j :: 0 <= j < |r| ==> r[j] == m[if j < i then j else j + 1];
    if UniqueKeys(m) {
      forall k' | k' != k ensures Get(r, k') == Get(m, k') {
        match IndexOf(m, k')
        case None => IndexOfIs(r, k', None);
        case Some(j) => IndexOfIs(r, k', Some(if j < i then j else j - 1));
      }
    }
  }

  /** Deleting an entry removes its value from the value list and keeps the
      other values in their order. */
  lemma {:induction false} ValuesDelete<V>(m: seq<(string, V)>, k: string)
    requires HasKey(m, k)
    ensures var i := IndexOf(m, k).value;
      Values(Delete(m, k)) == Values(m)[..i] + Values(m)[i + 1..]
  {
    var i := IndexOf(m, k).value;
    var r := Delete(m, k);
    assert r == m[..i] + m[i + 1..];
    var lhs := Values(r);
    var rhs := Values(m)[..i] + Values(m)[i + 1..];
    assert |lhs| == |rhs|;
    forall j | 0 <= j < |lhs|
      ensures lhs[j] == rhs[j]
    {
      if j < i {
        assert r[j] == m[j];
      } else {
        assert r[j] == m[j + 1];
      }
    }
  }

  /** Setting a key that is not yet present appends its value to the value
      list; setting a present key replaces its value where it stands. */
  lemma ValuesSet<V>(m: seq<(string, V)>, k: string, v: V)
    ensures !HasKey(m, k) ==> Values(Set(m, k, v)) == Values(m) + [v]
    ensures HasKey(m, k) ==> Values(Set(m, k, v)) == Values(m)[IndexOf(m, k).value := v]
  {
    if HasKey(m, k) {
      var i := IndexOf(m, k).value;
      assert Set(m, k, v) == m[i := (k, v)];
      assert Values(Set(m, k, v)) == Values(m)[i := v];
    } else {
      assert Values(Set(m, k, v)) == Values(m) + [v];
    }
  }
}
