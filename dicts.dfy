/** A dictionary keyed by atom serials that remembers insertion order, as a
    Python dict does: assigning to a new key appends it, assigning to an
    existing key keeps its place. */
module Dicts {

  predicate Distinct(s: seq<int>) {
    forall i, j :: 0 <= i < j < |s| ==> s[i] != s[j]
  }

  datatype Dict<V> = Dict(keys: seq<int>, entries: map<int, V>) {
    /** The keys in order are exactly the keys present, each once. */
    ghost predicate Valid() {
      Distinct(keys) && forall k :: k in entries <==> k in keys
    }

    /** The value of the i-th key in insertion order. */
    function ValueAt(i: nat): V
      requires Valid() && i < |keys|
    {
      assert keys[i] in keys;
      entries[keys[i]]
    }

    /** d[k] = v */
    function Put(k: int, v: V): (d: Dict<V>)
      requires Valid()
      ensures d.Valid()
      ensures d.entries == entries[k := v]
      ensures d.keys == if k in entries then keys else keys + [k]
    {
      if k in entries then Dict(keys, entries[k := v]) else Dict(keys + [k], entries[k := v])
    }
  }

  function Empty<V>(): (d: Dict<V>)
    ensures d.Valid() && d.keys == []
  {
    Dict([], map[])
  }

  /** The keys a dictionary ends up with when s is assigned in order: each
      element at its first occurrence. */
  function FirstOccurrences(s: seq<int>): (r: seq<int>)
    ensures Distinct(r)
    ensures forall k :: k in r <==> k in s
  {
    if s == [] then []
    else
      var p := FirstOccurrences(s[..|s| - 1]);
      assert forall k :: k in s <==> k in s[..|s| - 1] || k == s[|s| - 1];
      if s[|s| - 1] in p then p else p + [s[|s| - 1]]
  }
}
