/** A Python `dict` with string keys as an insertion-ordered list of
    key/value pairs. Assigning to a present key keeps its position; a new key
    goes last. Iterating `d.items()` yields the pairs in this order. */
module PyDict {
  import opened Base

  type Dict<V> = seq<(string, V)>

  predicate HasKey<V>(d: Dict<V>, k: string) {
    exists i :: 0 <= i < |d| && d[i].0 == k
  }

  /** No key appears twice: the invariant every Python dict keeps. */
  predicate UniqueKeys<V>(d: Dict<V>) {
    forall i, j :: 0 <= i < j < |d| ==> d[i].0 != d[j].0
  }

  /** The position of key `k`, if present. */
  function IndexOf<V>(d: Dict<V>, k: string): (r: Option<nat>)
    ensures r.None? <==> !HasKey(d, k)
    ensures r.Some? ==> r.value < |d| && d[r.value].0 == k
                        && forall j :: 0 <= j < r.value ==> d[j].0 != k
  {
    if d == [] then None
    else if d[0].0 == k then Some(0)
    else
      var r := IndexOf(d[1..], k);
      assert forall j :: 0 < j < |d| ==> d[j] == d[1..][j - 1];
      if r.None? then None else Some(r.value + 1)
  }

  /** Two dicts whose keys agree position by position find every key at the
      same position. */
  lemma IndexOfSameKeys<V>(d: Dict<V>, e: Dict<V>, k: string)
    requires |d| == |e|
    requires forall j :: 0 <= j < |d| ==> d[j].0 == e[j].0
    ensures IndexOf(d, k) == IndexOf(e, k)
  {
  }

  /** `d.get(k)` */
  function Get<V>(d: Dict<V>, k: string): (r: Option<V>)
    ensures r.Some? <==> HasKey(d, k)
    ensures r.Some? ==> exists i :: 0 <= i < |d| && d[i] == (k, r.value)
  {
    match IndexOf(d, k)
    case Some(i) => Some(d[i].1)
    case None => None
  }

  lemma ReplaceKeepsOthers<V>(d: Dict<V>, i: nat, k: string, v: V)
    requires IndexOf(d, k) == Some(i)
    ensures Get(d[i := (k, v)], k) == Some(v)
    ensures forall k' :: k' != k ==> Get(d[i := (k, v)], k') == Get(d, k')
  {
    var r := d[i := (k, v)];
    IndexOfSameKeys(d, r, k);
    forall k' | k' != k ensures Get(r, k') == Get(d, k') {
      IndexOfSameKeys(d, r, k');
    }
  }

  lemma AppendKeepsOthers<V>(d: Dict<V>, k: string, v: V)
    requires !HasKey(d, k)
    ensures Get(d + [(k, v)], k) == Some(v)
    ensures forall k' :: k' != k ==> Get(d + [(k, v)], k') == Get(d, k')
  {
    var r := d + [(k, v)];
    assert forall t :: 0 <= t < |d| ==> r[t] == d[t];
    assert r[|d|].0 == k;
    forall k' | k' != k ensures Get(r, k') == Get(d, k') {
      var j := IndexOf(d, k');
      if j.Some? {
        assert r[j.value].0 == k';
      }
    }
  }

  /** `d[k] = v` */
  function Set<V>(d: Dict<V>, k: string, v: V): (r: Dict<V>)
    requires UniqueKeys(d)
    ensures UniqueKeys(r)
  {
    var i := IndexOf(d, k);
    if i.Some? then
      assert forall j :: 0 <= j < |d| ==> d[i.value := (k, v)][j].0 == d[j].0;
      d[i.value := (k, v)]
    else
      d + [(k, v)]
  }

  /** `d[k] = v`: `k` now reads `v` and every other key reads as before; an
      existing key keeps its position, a new key is appended. */
  lemma SetSpec<V>(d: Dict<V>, k: string, v: V)
    requires UniqueKeys(d)
    ensures Get(Set(d, k, v), k) == Some(v)
    ensures forall k' :: k' != k ==> Get(Set(d, k, v), k') == Get(d, k')
    ensures HasKey(d, k) ==> |Set(d, k, v)| == |d| && forall i :: 0 <= i < |d| ==> Set(d, k, v)[i].0 == d[i].0
    ensures !HasKey(d, k) ==> Set(d, k, v) == d + [(k, v)]
  {
    var i := IndexOf(d, k);
    if i.Some? {
      ReplaceKeepsOthers(d, i.value, k, v);
    } else {
      AppendKeepsOthers(d, k, v);
    }
  }
}
