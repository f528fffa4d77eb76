/** `OrderedDictionary` (Collections/OrderedDictionary.swift): an array of keys
    giving the order, beside a map from keys to values. */
module OrderedDictionaries {
  import opened Wrappers
  import opened MapFacts

  /** `keys.filter { $0 != key }`. */
  function Without<K(==)>(s: seq<K>, key: K): (r: seq<K>)
    ensures key !in r
    ensures forall x :: x in r ==> x in s
    ensures forall x :: x in s && x != key ==> x in r
    ensures multiset(r) == multiset(s)[key := 0]
  {
    if |s| == 0 then []
    else if s[0] == key then
      assert s == [s[0]] + s[1..];
      Without(s[1..], key)
    else
      assert s == [s[0]] + s[1..];
      [s[0]] + Without(s[1..], key)
  }

  class OrderedDictionary<K(==), V> {
    var keys: seq<K>
    var values: map<K, V>

    /** Every key in the order has a value, and every value's key is in the
        order. All the operations below keep this. */
    predicate Valid()
      reads this
    {
      (set k | k in keys) == values.Keys
    }

    /** `init()`: empty. */
    constructor ()
      ensures Valid() && keys == [] && values == map[]
    {
      keys := [];
      values := map[];
    }

    /** The key subscript's getter. */
    function Get(key: K): (r: Option<V>)
      reads this
      ensures r.Some? <==> key in values
      ensures r.Some? ==> r.value == values[key]
      ensures Valid() ==> (r.Some? <==> key in keys)
    {
      if key in values then Some(values[key]) else None
    }

    /** The key subscript's setter. `nil` removes the key from the map and
        every copy of it from the order; a value for a new key appends the
        key, and a value for a present key keeps its position. */
    method Set(key: K, newValue: Option<V>)
      modifies this
      ensures newValue.None? ==> values == old(values) - {key} && keys == Without(old(keys), key)
      ensures newValue.Some? ==> values == old(values)[key := newValue.value]
      ensures newValue.Some? && key in old(values) ==> keys == old(keys)
      ensures newValue.Some? && key !in old(values) ==> keys == old(keys) + [key]
      ensures Get(key) == newValue
      ensures old(Valid()) ==> Valid()
    {
      match newValue
      case None =>
        values := values - {key};
        keys := Without(keys, key);
      case Some(v) =>
        var oldValue := Get(key);
        values := values[key := v];
        if oldValue == None {
          keys := keys + [key];
        }
    }

    /** `append(_:key:)`: the key is appended even when already present. */
    method Append(value: V, key: K)
      modifies this
      ensures keys == old(keys) + [key]
      ensures values == old(values)[key := value]
      ensures old(Valid()) ==> Valid()
    {
      keys := keys + [key];
      values := values[key := value];
    }

    /** `insert(_:key:index:)`: the key is placed at `index` of the order,
        which traps outside `0...keys.count`. */
    method Insert(value: V, key: K, index: int)
      requires 0 <= index <= |keys|
      modifies this
      ensures keys == old(keys)[..index] + [key] + old(keys)[index..]
      ensures keys[index] == key
      ensures values == old(values)[key := value]
      ensures old(Valid()) ==> Valid()
    {
      keys := keys[..index] + [key] + keys[index..];
      values := values[key := value];
    }

    /** `appendContents(of:)`: the other order is appended, then each of its
        keys takes its value there; the force-unwrap needs each such key to
        have a value. Both are read before any change, as Swift's value
        semantics do even when `other` is the receiver. */
    method AppendContents(other: OrderedDictionary<K, V>)
      requires forall k :: k in other.keys ==> k in other.values
      modifies this
      ensures keys == old(keys) + old(other.keys)
      ensures values == old(values) + Restrict(old(other.values), old(other.keys))
      ensures old(Valid()) && old(other.Valid()) ==> Valid() && values == old(values) + old(other.values)
    {
      var ks := other.keys;
      var vs := other.values;
      keys := keys + ks;
      var i := 0;
      while i < |ks|
        invariant 0 <= i <= |ks|
        invariant keys == old(keys) + ks
        invariant values == old(values) + Restrict(vs, ks[..i])
      {
        assert ks[..i + 1] == ks[..i] + [ks[i]];
        RestrictStep(old(values), vs, ks[..i], ks[i]);
        values := values[ks[i] := vs[ks[i]]];
        i := i + 1;
      }
      assert ks[..i] == ks;
      if old(Valid()) && old(other.Valid()) {
        RestrictAll(vs, ks);
      }
    }

    /** `value(index:)`: nothing outside `0..<keys.count`. */
    function ValueAt(index: int): (r: Option<V>)
      reads this
      ensures !(0 <= index < |keys|) ==> r.None?
      ensures 0 <= index < |keys| ==> r == Get(keys[index])
      ensures Valid() ==> (r.Some? <==> 0 <= index < |keys|)
    {
      if !(0 <= index && index < |keys|) then None
      else Get(keys[index])
    }
  }

  /** The dictionary-literal initialiser: each pair appended in literal
      order, so the order is the literal's, duplicates included. */
  method FromLiteral<K(==), V>(pairs: seq<(K, V)>) returns (d: OrderedDictionary<K, V>)
    ensures fresh(d) && d.Valid()
    ensures d.keys == KeysOf(pairs)
    ensures d.values == AssignAll(map[], pairs)
  {
    d := new OrderedDictionary();
    for i := 0 to |pairs|
      invariant fresh(d) && d.Valid()
      invariant d.keys == KeysOf(pairs[..i])
      invariant d.values == AssignAll(map[], pairs[..i])
    {
      assert pairs[..i + 1][..i] == pairs[..i];
      d.Append(pairs[i].1, pairs[i].0);
    }
    assert pairs[..|pairs|] == pairs;
  }

  /** `==`: the same order, then every key of each side has an equal value on
      the other side, stopping at the first difference. */
  method Equals<K(==), V(==)>(lhs: OrderedDictionary<K, V>, rhs: OrderedDictionary<K, V>) returns (b: bool)
    requires lhs.Valid() && rhs.Valid()
    ensures b <==> lhs.keys == rhs.keys && lhs.values == rhs.values
  {
    if lhs.keys != rhs.keys {
      return false;
    }
    for i := 0 to |lhs.keys|
      invariant forall j :: 0 <= j < i ==>
                  lhs.keys[j] in rhs.values && rhs.values[lhs.keys[j]] == lhs.values[lhs.keys[j]]
    {
      var key := lhs.keys[i];
      if key !in rhs.values || rhs.values[key] != lhs.values[key] {
        return false;
      }
    }
    for i := 0 to |rhs.keys|
      invariant forall j :: 0 <= j < i ==>
                  rhs.keys[j] in lhs.values && lhs.values[rhs.keys[j]] == rhs.values[rhs.keys[j]]
    {
      var key := rhs.keys[i];
      if key !in lhs.values || lhs.values[key] != rhs.values[key] {
        return false;
      }
    }
    assert forall k :: k in lhs.values ==> k in lhs.keys;
    return true;
  }
}
