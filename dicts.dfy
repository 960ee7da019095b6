/**
 * A Python `dict` with string keys, which remembers insertion order: the
 * scripts iterate `replacements.items()` and `user_inputs.items()` in that order.
 */
module Dicts {

  datatype Entry<V> = Entry(key: string, value: V)

  /** The keys in iteration order. */
  function Keys<V>(d: seq<Entry<V>>): (ks: seq<string>)
    ensures |ks| == |d|
  {
    seq(|d|, i requires 0 <= i < |d| => d[i].key)
  }

  /** The invariant every dict keeps: no key twice. */
  predicate DistinctKeys<V>(d: seq<Entry<V>>)
  {
    forall i, j :: 0 <= i < j < |d| ==> d[i].key != d[j].key
  }

  /** Where key `k` sits in the iteration order. */
  function IndexOfKey<V>(d: seq<Entry<V>>, k: string): (i: nat)
    requires k in Keys(d)
    ensures i < |d| && d[i].key == k
  {
    if d[0].key == k then 0
    else
      assert Keys(d[1..]) == Keys(d)[1..];
      1 + IndexOfKey(d[1..], k)
  }

  /**
   * Python's `d[k] = v`: an existing key keeps its place and takes the new
   * value; a new key is added at the end.
   */
  function Assign<V>(d: seq<Entry<V>>, k: string, v: V): (r: seq<Entry<V>>)
    requires DistinctKeys(d)
    ensures DistinctKeys(r)
    ensures Keys(r) == if k in Keys(d) then Keys(d) else Keys(d) + [k]
    ensures forall i :: 0 <= i < |d| ==> r[i] == if d[i].key == k then Entry(k, v) else d[i]
    ensures k !in Keys(d) ==> r == d + [Entry(k, v)]
  {
    if k in Keys(d) then
      var i := IndexOfKey(d, k);
      assert Keys(d[i := Entry(k, v)]) == Keys(d);
      d[i := Entry(k, v)]
    else
      assert forall i :: 0 <= i < |d| ==> d[i].key == Keys(d)[i];
      assert Keys(d + [Entry(k, v)]) == Keys(d) + [k];
      d + [Entry(k, v)]
  }
}
