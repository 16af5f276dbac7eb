/** Python dictionaries as their items in insertion order: assignment keeps a present
    key's place, a new key goes last, and lookup finds a key's entry. */
module Dicts {
  import opened Linear

  /** A Python dictionary as its items in insertion order. */
  type Dict<V> = seq<(string, V)>

  function Keys<V>(d: Dict<V>): (ks: seq<string>)
    ensures |ks| == |d| && forall i :: 0 <= i < |d| ==> ks[i] == d[i].0
  {
    seq(|d|, i requires 0 <= i < |d| => d[i].0)
  }

  /** `d[key] = v`: a present key keeps its place and takes the new value; a new key
      goes last. */
  function Put<V>(d: Dict<V>, key: string, v: V): (r: Dict<V>)
    ensures key in Keys(d) ==> |r| == |d| && Keys(r) == Keys(d)
    ensures key in Keys(d) ==> forall i :: 0 <= i < |d| ==> r[i] == (if d[i].0 == key then (key, v) else d[i])
    ensures key !in Keys(d) ==> r == d + [(key, v)]
  {
    if key in Keys(d) then Replace(d, key, v) else d + [(key, v)]
  }

  /** Every entry under `key` takes the value `v`. */
  function Replace<V>(d: Dict<V>, key: string, v: V): (r: Dict<V>)
    ensures |r| == |d| && Keys(r) == Keys(d)
    ensures forall i :: 0 <= i < |d| ==> r[i] == (if d[i].0 == key then (key, v) else d[i])
    decreases |d|
  {
    if |d| == 0 then []
    else [if d[0].0 == key then (key, v) else d[0]] + Replace(d[1..], key, v)
  }

  /** `d[key]` for a key that is present: the value under its first occurrence (the
      only one, in a dictionary). */
  function Get<V>(d: Dict<V>, key: string): (v: V)
    requires key in Keys(d)
    decreases |d|
  {
    if d[0].0 == key then d[0].1
    else
      assert key in Keys(d[1..]) by {
        var i :| 0 <= i < |d| && Keys(d)[i] == key;
        assert Keys(d[1..])[i - 1] == key;
      }
      Get(d[1..], key)
  }

  /** Keys that never repeat. */
  predicate DistinctKeys<V>(d: Dict<V>) {
    forall i, j :: 0 <= i < j < |d| ==> d[i].0 != d[j].0
  }

  /** In a dictionary the value under an entry's key is that entry's. */
  lemma {:induction false} GetOfDistinct<V>(d: Dict<V>, i: nat)
    requires DistinctKeys(d) && i < |d|
    ensures d[i].0 in Keys(d) && Get(d, d[i].0) == d[i].1
    decreases |d|
  {
    assert Keys(d)[i] == d[i].0;
    if i > 0 {
      assert d[0].0 != d[i].0;
      assert d[1..][i - 1] == d[i];
      GetOfDistinct(d[1..], i - 1);
    }
  }

  function Values(d: Dict<real>): (vs: Vector)
    ensures |vs| == |d| && forall i :: 0 <= i < |d| ==> vs[i] == d[i].1
  {
    seq(|d|, i requires 0 <= i < |d| => d[i].1)
  }
}
