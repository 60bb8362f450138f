/**
 * Dictionary+Ex.swift: the casting subscript, the subscript over a sequence
 * of keys, `isEmpty`, `contains`, `allKeys`, `allValues` and `toArray`. A Swift
 * dictionary is a value, so the mutating subscript returns the new dictionary.
 * The order in which a dictionary lists its entries is unspecified, and
 * `shuffled()` randomises it again: the listing functions promise only which
 * entries come out, each once.
 */
module Dictionaries {
  import opened Wrappers

  /** `self[key] as? T` with `T` the value type: the stored value, if any. */
  function Get<K, V>(d: map<K, V>, key: K): (r: Option<V>)
    ensures r.Some? <==> key in d
    ensures r.Some? ==> r.value == d[key]
  {
    if key in d then Some(d[key]) else None
  }

  /** The setter of `subscript<T>(key:)`: `newValue as? Value`, where `None`
    * stands for `nil` or a value of another type. A value that casts is
    * stored; anything else removes the key. */
  function Set<K, V>(d: map<K, V>, key: K, newValue: Option<V>): (r: map<K, V>)
    ensures newValue.Some? ==> key in r && r[key] == newValue.value
    ensures newValue == None ==> key !in r
    ensures r.Keys - {key} == d.Keys - {key}
    ensures forall k :: k in r && k in d && k != key ==> r[k] == d[k]
  {
    if newValue.Some? then d[key := newValue.value] else d - {key}
  }

  /** Reading back what the setter stored: the value, or `nil`. */
  lemma GetAfterSet<K, V>(d: map<K, V>, key: K, newValue: Option<V>)
    ensures Get(Set(d, key, newValue), key) == newValue
  {
  }

  /** The values of the present keys of `keys`, in key order. */
  function ValuesFor<K, V>(d: map<K, V>, keys: seq<K>): (r: seq<V>)
    ensures |r| <= |keys|
  {
    if keys == [] then []
    else ValuesFor(d, keys[..|keys| - 1]) + (if keys[|keys| - 1] in d then [d[keys[|keys| - 1]]] else [])
  }

  /** The values are exactly those of the present keys: each present key's
    * value is among them, and each of them belongs to a present key. */
  lemma {:induction false} ValuesForContents<K, V>(d: map<K, V>, keys: seq<K>)
    ensures forall i :: 0 <= i < |keys| && keys[i] in d ==> d[keys[i]] in ValuesFor(d, keys)
    ensures forall v :: v in ValuesFor(d, keys) ==> exists i :: 0 <= i < |keys| && keys[i] in d && d[keys[i]] == v
  {
    if keys != [] {
      var init := keys[..|keys| - 1];
      ValuesForContents(d, init);
      forall v | v in ValuesFor(d, keys)
        ensures exists i :: 0 <= i < |keys| && keys[i] in d && d[keys[i]] == v
      {
        if v in ValuesFor(d, init) {
          var i :| 0 <= i < |init| && init[i] in d && d[init[i]] == v;
          assert keys[i] == init[i];
        } else {
          assert keys[|keys| - 1] in d && d[keys[|keys| - 1]] == v;
        }
      }
      forall i | 0 <= i < |keys| && keys[i] in d
        ensures d[keys[i]] in ValuesFor(d, keys)
      {
        if i < |init| {
          assert keys[i] == init[i];
        }
      }
    }
  }

  /** `subscript(keys:)`: each present key adds its value, an absent one
    * nothing. */
  method ValuesForKeys<K, V>(d: map<K, V>, keys: seq<K>) returns (values: seq<V>)
    ensures values == ValuesFor(d, keys)
    ensures |values| <= |keys|
    ensures (forall i :: 0 <= i < |keys| ==> keys[i] in d) ==> |values| == |keys|
  {
    values := [];
    for i := 0 to |keys|
      invariant values == ValuesFor(d, keys[..i])
    {
      assert keys[..i + 1][..i] == keys[..i];
      if keys[i] in d {
        values := values + [d[keys[i]]];
      }
    }
    assert keys[..|keys|] == keys;
    AllPresentKeepsLength(d, keys);
  }

  /** When every key is present, one value comes out per key. */
  lemma {:induction false} AllPresentKeepsLength<K, V>(d: map<K, V>, keys: seq<K>)
    ensures (forall i :: 0 <= i < |keys| ==> keys[i] in d) ==> |ValuesFor(d, keys)| == |keys|
  {
    if keys != [] {
      var init := keys[..|keys| - 1];
      if forall i :: 0 <= i < |keys| ==> keys[i] in d {
        assert forall i :: 0 <= i < |init| ==> init[i] in d by {
          forall i | 0 <= i < |init| ensures init[i] in d {
            assert init[i] == keys[i];
          }
        }
      }
      AllPresentKeepsLength(d, init);
    }
  }

  /** `contains(_:)`: `index(forKey:) != nil`. */
  predicate Contains<K, V>(d: map<K, V>, key: K)
  {
    Get(d, key).Some?
  }

  /** `isEmpty`: no keys, so that no key is contained. */
  function IsEmpty<K, V>(d: map<K, V>): (b: bool)
    ensures b <==> |d| == 0
    ensures b <==> !exists k :: k in d.Keys && Contains(d, k)
  {
    if |d.Keys| == 0 then true
    else
      var k :| k in d.Keys;
      assert Contains(d, k);
      false
  }

  /** No key twice in a listing. */
  predicate Distinct<K(==)>(s: seq<K>)
  {
    forall i, j :: 0 <= i < j < |s| ==> s[i] != s[j]
  }

  /** `allKeys()`: every key once, in an order the model leaves open. */
  method AllKeys<K, V>(d: map<K, V>) returns (keys: seq<K>)
    ensures Distinct(keys) && |keys| == |d|
    ensures forall k :: k in keys <==> k in d
  {
    keys := [];
    var rest := d.Keys;
    while rest != {}
      invariant rest <= d.Keys
      invariant Distinct(keys)
      invariant forall k :: k in keys <==> k in d.Keys - rest
      invariant |keys| + |rest| == |d.Keys|
      decreases |rest|
    {
      var k :| k in rest;
      assert k !in keys;
      keys := keys + [k];
      rest := rest - {k};
    }
  }

  /** `allValues()`: the value of every entry once (equal values as often as
    * they are stored), listed along some order `order` of the keys. */
  method AllValues<K, V>(d: map<K, V>) returns (values: seq<V>, order: seq<K>)
    ensures Distinct(order) && |order| == |d| && forall k :: k in order <==> k in d
    ensures |values| == |order| && forall i :: 0 <= i < |order| ==> values[i] == d[order[i]]
  {
    var keys := AllKeys(d);
    order := keys;
    values := [];
    for i := 0 to |keys|
      invariant |values| == i
      invariant forall j :: 0 <= j < i ==> values[j] == d[keys[j]]
    {
      values := values + [d[keys[i]]];
    }
  }

  /** `toArray(_:)`: `map` over the entries, one element per entry. */
  method ToArray<K, V, T>(d: map<K, V>, f: (K, V) -> T) returns (r: seq<T>, order: seq<K>)
    ensures Distinct(order) && |order| == |d| && forall k :: k in order <==> k in d
    ensures |r| == |d| && forall i :: 0 <= i < |order| ==> r[i] == f(order[i], d[order[i]])
  {
    var keys := AllKeys(d);
    order := keys;
    r := [];
    for i := 0 to |keys|
      invariant |r| == i
      invariant forall j :: 0 <= j < i ==> r[j] == f(keys[j], d[keys[j]])
    {
      r := r + [f(keys[i], d[keys[i]])];
    }
  }
}
