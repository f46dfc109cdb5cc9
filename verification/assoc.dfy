/**
 * Association lists: the model of a Python `dict` that is iterated in
 * insertion order. A table is a sequence of (key, value) pairs; a well-formed
 * table has distinct keys.
 */
module Assoc {
  import opened Wrappers
  import opened Seqs

  /** Keys in table order (Python's `list(d.keys())`). */
  function Keys<K, V>(t: seq<(K, V)>): (ks: seq<K>)
    ensures |ks| == |t|
    ensures forall i :: 0 <= i < |t| ==> ks[i] == t[i].0
  {
    if |t| == 0 then [] else [t[0].0] + Keys(t[1..])
  }

  /** Two tables with the same keys at the same positions have the same key sequence. */
  lemma KeysOfAligned<K, V, W>(a: seq<(K, V)>, b: seq<(K, W)>)
    requires |a| == |b|
    requires forall i :: 0 <= i < |a| ==> a[i].0 == b[i].0
    ensures Keys(a) == Keys(b)
  {
  }

  lemma KeysStep<K, V>(t: seq<(K, V)>)
    requires |t| > 0
    ensures Keys(t) == [t[0].0] + Keys(t[1..])
  {
  }

  lemma KeysAppend<K, V>(a: seq<(K, V)>, b: seq<(K, V)>)
    ensures Keys(a + b) == Keys(a) + Keys(b)
  {
  }

  predicate DistinctKeys<K(==), V>(t: seq<(K, V)>) {
    forall i, j :: 0 <= i < j < |t| ==> t[i].0 != t[j].0
  }

  /** Distinctness depends only on the key sequence. */
  lemma DistinctKeysByKeys<K, V, W>(a: seq<(K, V)>, b: seq<(K, W)>)
    requires Keys(a) == Keys(b) && DistinctKeys(b)
    ensures DistinctKeys(a)
  {
    forall i, j | 0 <= i < j < |a|
      ensures a[i].0 != a[j].0
    {
      assert Keys(a)[i] == b[i].0 && Keys(a)[j] == b[j].0;
    }
  }

  lemma HeadKeyNotInTail<K, V>(t: seq<(K, V)>)
    requires |t| > 0 && DistinctKeys(t)
    ensures t[0].0 !in Keys(t[1..])
    ensures DistinctKeys(t[1..])
  {
    forall j | 0 <= j < |t| - 1
      ensures t[1..][j].0 != t[0].0
    {
      assert t[1..][j] == t[j + 1];
    }
  }

  /** The value of the first entry with key `k` (Python's `d.get(k)`). */
  function Lookup<K(==), V>(t: seq<(K, V)>, k: K): (r: Option<V>)
    ensures r.None? <==> k !in Keys(t)
  {
    if |t| == 0 then None
    else if t[0].0 == k then Some(t[0].1)
    else
      assert Keys(t) == [t[0].0] + Keys(t[1..]);
      Lookup(t[1..], k)
  }

  lemma KeyAt<K, V>(t: seq<(K, V)>, i: nat)
    requires i < |t|
    ensures t[i].0 in Keys(t)
  {
  }

  lemma {:induction false} LookupAt<K, V>(t: seq<(K, V)>, i: nat)
    requires DistinctKeys(t)
    requires i < |t|
    ensures Lookup(t, t[i].0) == Some(t[i].1)
  {
    if i > 0 {
      LookupAt(t[1..], i - 1);
    }
  }

  lemma {:induction false} LookupPair<K, V>(t: seq<(K, V)>, k: K, v: V)
    requires DistinctKeys(t)
    requires (k, v) in t
    ensures Lookup(t, k) == Some(v)
  {
    var i :| 0 <= i < |t| && t[i] == (k, v);
    LookupAt(t, i);
  }
}
