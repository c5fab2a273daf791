/**
 * A Python `dict` with string keys. Python dicts remember insertion order
 * and the JSON serialiser walks them in that order, so a dict is modelled as
 * its entries in insertion order rather than as an unordered `map`.
 */
module PyDict {
  import opened Wrappers
  import Seqs

  type Dict<V> = seq<(string, V)>

  /** The keys in insertion order. */
  function Keys<V>(d: Dict<V>): seq<string> {
    seq(|d|, i requires 0 <= i < |d| => d[i].0)
  }

  /** No key occurs twice: true of every dict Python builds. */
  ghost predicate UniqueKeys<V>(d: Dict<V>) {
    forall i, j :: 0 <= i < j < |d| ==> d[i].0 != d[j].0
  }

  /** The position of key `k`, if present: the first entry whose key is `k`. */
  function IndexOf<V>(d: Dict<V>, k: string): (r: Option<nat>)
    ensures r.None? <==> forall i :: 0 <= i < |d| ==> d[i].0 != k
    ensures r.Some? ==> r.value < |d| && d[r.value].0 == k
    ensures r.Some? ==> forall j :: 0 <= j < r.value ==> d[j].0 != k
  {
    Seqs.FirstIndex(d, (e: (string, V)) => e.0 == k)
  }

  /** `d.get(k)` without a default: the value stored under `k`, if any. */
  function Get<V>(d: Dict<V>, k: string): (r: Option<V>)
    ensures r.None? <==> forall i :: 0 <= i < |d| ==> d[i].0 != k
    ensures r.Some? ==> exists i :: 0 <= i < |d| && d[i] == (k, r.value)
  {
    match IndexOf(d, k)
    case None => None
    case Some(i) => Some(d[i].1)
  }

  /** `d[k] = v`: an existing key keeps its position and takes the new value; a new key is appended. */
  function Set<V>(d: Dict<V>, k: string, v: V): (r: Dict<V>)
    ensures Get(r, k) == Some(v)
    ensures forall k' :: k' != k ==> Get(r, k') == Get(d, k')
    ensures Get(d, k).Some? ==> Keys(r) == Keys(d)
    ensures Get(d, k).None? ==> Keys(r) == Keys(d) + [k]
    ensures UniqueKeys(d) ==> UniqueKeys(r)
  {
    match IndexOf(d, k)
    case Some(i) =>
      var r := d[i := (k, v)];
      IndexOfUnique(r, k, Some(i));
      assert forall k' :: k' != k ==> IndexOf(r, k') == IndexOf(d, k') by {
        forall k' | k' != k
          ensures IndexOf(r, k') == IndexOf(d, k')
        {
          IndexOfUnique(r, k', IndexOf(d, k'));
        }
      }
      r
    case None =>
      var r := d + [(k, v)];
      IndexOfUnique(r, k, Some(|d|));
      assert forall k' :: k' != k ==> IndexOf(r, k') == IndexOf(d, k') by {
        forall k' | k' != k
          ensures IndexOf(r, k') == IndexOf(d, k')
        {
          IndexOfUnique(r, k', IndexOf(d, k'));
        }
      }
      r
  }

  /** `IndexOf` is pinned down by its contract: any answer meeting it is the answer. */
  lemma IndexOfUnique<V>(d: Dict<V>, k: string, r: Option<nat>)
    requires r.None? ==> forall i :: 0 <= i < |d| ==> d[i].0 != k
    requires r.Some? ==> r.value < |d| && d[r.value].0 == k
    requires r.Some? ==> forall j :: 0 <= j < r.value ==> d[j].0 != k
    ensures IndexOf(d, k) == r
  {
  }
}
