/**
 * Python dictionaries with string keys, which remember the order their keys were
 * first inserted in: the order is a sequence kept beside the map.
 */
module Dicts {
  import opened Lists

  datatype Dict<V> = Dict(keys: seq<string>, values: map<string, V>) {
    /** The keys listed are exactly the keys mapped, each listed once. */
    predicate Valid() {
      Distinct(keys) && (forall k :: k in keys ==> k in values) && (forall k :: k in values ==> k in keys)
    }

    /** `d.get(k, default)`. */
    function Get(k: string, default: V): V {
      if k in values then values[k] else default
    }
  }

  function EmptyDict<V>(): Dict<V> {
    Dict([], map[])
  }

  /** `d[k] = v`: a key already present keeps its place, a new key goes last. */
  function Put<V>(d: Dict<V>, k: string, v: V): Dict<V> {
    if k in d.values then Dict(d.keys, d.values[k := v]) else Dict(d.keys + [k], d.values[k := v])
  }

  /** `del d[k]`. */
  function Delete<V>(d: Dict<V>, k: string): Dict<V> {
    Dict(Without(d.keys, k), d.values - {k})
  }

  /** A dictionary literal: the pairs inserted in turn. */
  function FromPairs<V>(pairs: seq<(string, V)>): Dict<V> {
    if pairs == [] then EmptyDict()
    else
      var last := pairs[|pairs| - 1];
      Put(FromPairs(pairs[..|pairs| - 1]), last.0, last.1)
  }

  /**
   * Storing a value changes that key only: it is mapped to the value afterwards, every
   * other key keeps its value, and the key order grows by the key exactly when it is new.
   */
  lemma PutFacts<V>(d: Dict<V>, k: string, v: V)
    requires d.Valid()
    ensures var r := Put(d, k, v);
      r.Valid() && k in r.values && r.values[k] == v
      && (forall j :: j != k ==> (j in r.values <==> j in d.values))
      && (forall j :: j != k && j in d.values ==> r.values[j] == d.values[j])
      && (k in d.values ==> r.keys == d.keys)
      && (k !in d.values ==> r.keys == d.keys + [k])
  {
    if k !in d.values {
      AppendDistinct(d.keys, k);
    }
  }

  /**
   * Deleting a key removes that key only, and takes it out of the key order leaving the
   * other keys in their order.
   */
  lemma DeleteFacts<V>(d: Dict<V>, k: string)
    requires d.Valid()
    ensures var r := Delete(d, k);
      r.Valid() && k !in r.values
      && (forall j :: j != k ==> (j in r.values <==> j in d.values))
      && (forall j :: j != k && j in d.values ==> r.values[j] == d.values[j])
      && (k in d.values ==> r.keys == Remove(d.keys, k) && |r.keys| == |d.keys| - 1)
      && (k !in d.values ==> r.keys == d.keys)
  {
    WithoutMembers(d.keys, k);
    WithoutDistinct(d.keys, k);
    if k in d.values {
      RemoveIsWithout(d.keys, k);
    } else {
      WithoutAbsent(d.keys, k);
    }
  }

  /** A literal is a well-formed dictionary mapping each key to its last value. */
  lemma {:induction false} FromPairsValid<V>(pairs: seq<(string, V)>)
    ensures var d := FromPairs(pairs);
      d.Valid() && forall i :: 0 <= i < |pairs| ==> pairs[i].0 in d.values
  {
    if pairs != [] {
      var init := pairs[..|pairs| - 1];
      FromPairsValid(init);
      var last := pairs[|pairs| - 1];
      PutFacts(FromPairs(init), last.0, last.1);
      assert forall i :: 0 <= i < |init| ==> pairs[i] == init[i];
    }
  }

  /** The first key left after a deletion: the first key, or the second when the first is the one deleted. */
  lemma FirstAfterDelete<V>(d: Dict<V>, k: string)
    requires d.Valid() && k in d.values && |d.keys| >= 2
    ensures var r := Delete(d, k);
      r.keys != [] && r.keys[0] == (if d.keys[0] != k then d.keys[0] else d.keys[1])
  {
    var s := d.keys;
    if s[0] == k {
      DropFront(s);
      WithoutAbsent(s[1..], k);
    }
  }
}
