/** Python dictionaries as used by the catalog: a finite map together with
    the order in which its keys are iterated (Python 2 fixes some order; the
    model fixes insertion order, and no property below depends on it except
    where the source itself takes "the first" key). */
module Dicts {
  import opened Seqs

  datatype Dict<K, V> = Dict(order: seq<K>, items: map<K, V>)

  /** The iteration order lists every key exactly once. */
  ghost predicate Valid<K(!new), V>(d: Dict<K, V>) {
    Distinct(d.order) && (forall k :: k in d.order <==> k in d.items)
  }

  function Empty<K(!new), V>(): (r: Dict<K, V>)
    ensures Valid(r) && r.items == map[]
  {
    Dict([], map[])
  }

  /** `len(d)`. */
  function Len<K(!new), V>(d: Dict<K, V>): nat {
    |d.order|
  }

  lemma LenIsCardinality<K(!new), V>(d: Dict<K, V>)
    requires Valid(d)
    ensures Len(d) == |d.items.Keys|
  {
    DistinctCardinality(d.order);
    assert (set k | k in d.order) == d.items.Keys;
  }

  /** A dictionary is truthy exactly when it holds a key. */
  lemma NonEmptyIffKey<K(!new), V>(d: Dict<K, V>)
    requires Valid(d)
    ensures |d.order| > 0 <==> exists k :: k in d.items
  {
    if |d.order| > 0 {
      assert d.order[0] in d.items;
    }
  }

  /** `d[k] = v`: a new key goes to the end of the iteration order, an
      existing key keeps its place. */
  function Put<K(!new), V>(d: Dict<K, V>, k: K, v: V): (r: Dict<K, V>)
    requires Valid(d)
    ensures Valid(r)
    ensures r.items == d.items[k := v]
    ensures k in d.items ==> r.order == d.order
    ensures k !in d.items ==> r.order == d.order + [k]
  {
    if k in d.items then Dict(d.order, d.items[k := v])
    else
      assert k !in d.order;
      Dict(d.order + [k], d.items[k := v])
  }

  /** `d.pop(k)` for a key that may or may not be present (the result of
      `pop` is not used by the catalog). */
  function Pop<K(!new), V>(d: Dict<K, V>, k: K): (r: Dict<K, V>)
    requires Valid(d)
    ensures Valid(r)
    ensures r.items == d.items - {k}
  {
    Dict(Remove(d.order, k), d.items - {k})
  }

  /** `d.values()` in iteration order. */
  function Values<K(!new), V>(d: Dict<K, V>): (r: seq<V>)
    requires Valid(d)
    ensures |r| == |d.order|
    ensures forall i :: 0 <= i < |r| ==> r[i] == d.items[d.order[i]]
  {
    seq(|d.order|, i requires 0 <= i < |d.order| => d.items[d.order[i]])
  }

  lemma ValuesMember<K(!new), V>(d: Dict<K, V>, v: V)
    requires Valid(d)
    ensures v in Values(d) <==> exists k :: k in d.items && d.items[k] == v
  {
    if exists k :: k in d.items && d.items[k] == v {
      var k :| k in d.items && d.items[k] == v;
      var i :| 0 <= i < |d.order| && d.order[i] == k;
      assert Values(d)[i] == v;
    }
  }
}
