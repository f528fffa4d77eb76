/** `DictionaryType` (Collections/DictionaryType.swift): helpers for dictionary
    values in general, for dictionaries whose values are arrays, and for
    dictionaries of dictionaries, together with their equality operators.
    A dictionary is a Dafny `map`; the helpers that change it in place are
    methods of a class holding that map. */
module DictionaryTypes {
  import opened MapFacts

  /** `zip(xs, ys)`: pairs up to the shorter length. */
  function Zip<K, V>(xs: seq<K>, ys: seq<V>): (r: seq<(K, V)>)
    ensures |r| == if |xs| <= |ys| then |xs| else |ys|
    ensures forall i :: 0 <= i < |r| ==> r[i] == (xs[i], ys[i])
  {
    var n := if |xs| <= |ys| then |xs| else |ys|;
    seq(n, i requires 0 <= i < n => (xs[i], ys[i]))
  }

  /** Everything `lhs` maps is mapped the same way by `rhs`. */
  predicate Submap<K, V(==)>(lhs: map<K, V>, rhs: map<K, V>)
  {
    forall k :: k in lhs ==> k in rhs && rhs[k] == lhs[k]
  }

  /** Equality of maps is inclusion both ways. */
  lemma SubmapBothWays<K, V>(lhs: map<K, V>, rhs: map<K, V>)
    ensures Submap(lhs, rhs) && Submap(rhs, lhs) <==> lhs == rhs
  {
    if Submap(lhs, rhs) && Submap(rhs, lhs) {
      assert lhs.Keys == rhs.Keys;
    }
  }

  /** Assigning every entry of `other` into `d`, one key at a time, as the
      `for` loops of both `merge(with:)` methods do. */
  method AssignEach<K(==), V>(d: map<K, V>, other: map<K, V>) returns (r: map<K, V>)
    ensures r == d + other
  {
    r := d;
    var remaining := other.Keys;
    ghost var done: set<K> := {};
    while remaining != {}
      invariant remaining <= other.Keys && done == other.Keys - remaining
      invariant r == d + RestrictTo(other, done)
      decreases |remaining|
    {
      var key :| key in remaining;
      RestrictToStep(d, other, done, key);
      r := r[key := other[key]];
      remaining := remaining - {key};
      done := done + {key};
    }
    RestrictToWhole(other, done);
  }

  /** A dictionary with plain values. */
  class Dictionary<K(==), V> {
    var entries: map<K, V>

    /** `init(_:_:)`: the pairs of `zip(xs, ys)` assigned in order, so a later
        duplicate key overwrites an earlier one. */
    constructor FromArrays(xs: seq<K>, ys: seq<V>)
      ensures entries == AssignAll(map[], Zip(xs, ys))
    {
      entries := map[];
      new;
      var pairs := Zip(xs, ys);
      for i := 0 to |pairs|
        invariant entries == AssignAll(map[], pairs[..i])
      {
        assert pairs[..i + 1][..i] == pairs[..i];
        entries := entries[pairs[i].0 := pairs[i].1];
      }
      assert pairs[..|pairs|] == pairs;
    }

    /** `merge(with:)`: every entry of `other` is assigned, so its values win.
        The entries are read before any change, as Swift's value semantics do
        even when `other` is the receiver. */
    method Merge(other: Dictionary<K, V>)
      modifies this
      ensures entries == old(entries) + old(other.entries)
    {
      entries := AssignEach(entries, other.entries);
    }
  }

  /** The dictionary built by `init(xs, ys)` has exactly the keys of the
      paired prefix of `xs`, and a key whose last occurrence is at `i` maps
      to `ys[i]`. */
  lemma FromArraysSpec<K, V>(xs: seq<K>, ys: seq<V>, i: nat)
    requires i < |xs| && i < |ys|
    requires forall j :: i < j < |xs| && j < |ys| ==> xs[j] != xs[i]
    ensures AssignAll(map[], Zip(xs, ys)).Keys == set j | 0 <= j < |Zip(xs, ys)| :: xs[j]
    ensures AssignAll(map[], Zip(xs, ys))[xs[i]] == ys[i]
  {
    var pairs := Zip(xs, ys);
    assert (set j | 0 <= j < |pairs| :: pairs[j].0) == set j | 0 <= j < |pairs| :: xs[j];
    AssignAllLastWins(map[], pairs, i);
  }

  /** `ensureValue(for:)` on array values: a missing key gets an empty array. */
  function Ensured<K, E>(m: map<K, seq<E>>, key: K): (r: map<K, seq<E>>)
  {
    if key in m then m else m[key := []]
  }

  /** `safelyAppend(_:toArrayWith:)`. */
  function Appended<K, E>(m: map<K, seq<E>>, key: K, value: E): map<K, seq<E>>
  {
    var e := Ensured(m, key);
    e[key := e[key] + [value]]
  }

  /** `safelyAppendContents(of:toArrayWith:)`. */
  function AppendedContents<K, E>(m: map<K, seq<E>>, key: K, values: seq<E>): map<K, seq<E>>
  {
    var e := Ensured(m, key);
    e[key := e[key] + values]
  }

  /** `safelyAndUniquelyAppend(_:toArrayWith:)`. */
  function UniquelyAppended<K, E(==)>(m: map<K, seq<E>>, key: K, value: E): map<K, seq<E>>
  {
    var e := Ensured(m, key);
    if value in e[key] then e else e[key := e[key] + [value]]
  }

  /** The array under `key` before an append: the present one or empty. */
  function ArrayAt<K, E>(m: map<K, seq<E>>, key: K): seq<E>
  {
    if key in m then m[key] else []
  }

  /** Each array helper leaves every other key as it was, and afterwards the
      key is present: `ensureValue` keeps a present array and creates an
      empty one; `safelyAppend` and `safelyAppendContents` extend the array,
      or create it. */
  lemma ArrayHelpersSpec<K, E>(m: map<K, seq<E>>, key: K, value: E, values: seq<E>)
    ensures Ensured(m, key).Keys == m.Keys + {key}
    ensures Ensured(m, key)[key] == ArrayAt(m, key)
    ensures Appended(m, key, value).Keys == m.Keys + {key}
    ensures Appended(m, key, value)[key] == ArrayAt(m, key) + [value]
    ensures AppendedContents(m, key, values).Keys == m.Keys + {key}
    ensures AppendedContents(m, key, values)[key] == ArrayAt(m, key) + values
    ensures forall k :: k in m && k != key ==>
              Ensured(m, key)[k] == Appended(m, key, value)[k]
              == AppendedContents(m, key, values)[k] == m[k]
  {
  }

  /** `safelyAndUniquelyAppend` changes nothing but `ensureValue` when the
      value is already there, appends it otherwise, always leaves it in the
      array, and a second identical call changes nothing. */
  lemma UniquelyAppendedSpec<K, E>(m: map<K, seq<E>>, key: K, value: E)
    ensures value in ArrayAt(m, key) ==> UniquelyAppended(m, key, value) == Ensured(m, key)
    ensures value !in ArrayAt(m, key) ==> UniquelyAppended(m, key, value) == Appended(m, key, value)
    ensures value in UniquelyAppended(m, key, value)[key]
    ensures UniquelyAppended(UniquelyAppended(m, key, value), key, value) == UniquelyAppended(m, key, value)
  {
  }

  /** A dictionary whose values are arrays. */
  class ArrayDictionary<K(==), E(==)> {
    var entries: map<K, seq<E>>

    constructor (initial: map<K, seq<E>>)
      ensures entries == initial
    {
      entries := initial;
    }

    /** `ensureValue(for:)`. */
    method EnsureValue(key: K)
      modifies this
      ensures entries == Ensured(old(entries), key)
    {
      if key !in entries {
        entries := entries[key := []];
      }
    }

    /** `safelyAppend(_:toArrayWith:)`. */
    method SafelyAppend(value: E, key: K)
      modifies this
      ensures entries == Appended(old(entries), key, value)
    {
      EnsureValue(key);
      entries := entries[key := entries[key] + [value]];
    }

    /** `safelyAppendContents(of:toArrayWith:)`. */
    method SafelyAppendContents(values: seq<E>, key: K)
      modifies this
      ensures entries == AppendedContents(old(entries), key, values)
    {
      EnsureValue(key);
      entries := entries[key := entries[key] + values];
    }

    /** `safelyAndUniquelyAppend(_:toArrayWith:)`. */
    method SafelyAndUniquelyAppend(value: E, key: K)
      modifies this
      ensures entries == UniquelyAppended(old(entries), key, value)
    {
      EnsureValue(key);
      if value in entries[key] {
        return;
      }
      entries := entries[key := entries[key] + [value]];
    }
  }

  /** The nested `merge(with:)`: for each key of `b`, its sub-dictionary is
      assigned entry by entry into `a`'s (created empty when missing). */
  function NestedMerged<K, H, V>(a: map<K, map<H, V>>, b: map<K, map<H, V>>): (r: map<K, map<H, V>>)
  {
    map k | k in a.Keys + b.Keys ::
      if k in b then (if k in a then a[k] else map[]) + b[k] else a[k]
  }

  /** The nested merge sets every sub-entry of the argument, keeps every other
      sub-entry, and adds no key that neither side has. */
  lemma NestedMergedSpec<K, H, V>(a: map<K, map<H, V>>, b: map<K, map<H, V>>)
    ensures NestedMerged(a, b).Keys == a.Keys + b.Keys
    ensures forall k, h :: k in b && h in b[k] ==>
              h in NestedMerged(a, b)[k] && NestedMerged(a, b)[k][h] == b[k][h]
    ensures forall k, h :: k in a && h in a[k] && !(k in b && h in b[k]) ==>
              h in NestedMerged(a, b)[k] && NestedMerged(a, b)[k][h] == a[k][h]
    ensures forall k :: k in NestedMerged(a, b) ==>
              NestedMerged(a, b)[k].Keys
                == (if k in a then a[k].Keys else {}) + (if k in b then b[k].Keys else {})
  {
  }

  /** `m` with the entries of `sub` assigned into the sub-dictionary at `key`,
      which is created empty when missing. */
  function MergedAt<K, H, V>(m: map<K, map<H, V>>, key: K, sub: map<H, V>): map<K, map<H, V>>
  {
    m[key := (if key in m then m[key] else map[]) + sub]
  }

  /** A dictionary whose values are dictionaries. */
  class NestedDictionary<K(==), H(==), V> {
    var entries: map<K, map<H, V>>

    constructor (initial: map<K, map<H, V>>)
      ensures entries == initial
    {
      entries := initial;
    }

    /** `ensureValue(for:)`: a missing key gets an empty sub-dictionary. */
    method EnsureValue(key: K)
      modifies this
      ensures key in old(entries) ==> entries == old(entries)
      ensures key !in old(entries) ==> entries == old(entries)[key := map[]]
    {
      if key !in entries {
        entries := entries[key := map[]];
      }
    }

    /** One step of the nested `merge(with:)`: ensure the key, then assign
        each entry of `sub` into its sub-dictionary (through a copy that is
        stored back, which for Swift's value types is the same as assigning
        through `self[key]!`). */
    method MergeEntry(key: K, sub: map<H, V>)
      modifies this
      ensures entries == MergedAt(old(entries), key, sub)
    {
      EnsureValue(key);
      var merged := AssignEach(entries[key], sub);
      entries := entries[key := merged];
    }

    /** The nested `merge(with:)`. The argument is read before any change. */
    method Merge(other: NestedDictionary<K, H, V>)
      modifies this
      ensures entries == NestedMerged(old(entries), old(other.entries))
    {
      var source := other.entries;
      ghost var initial := entries;
      var remaining := source.Keys;
      ghost var done: set<K> := {};
      NestedMergedNothing(initial, source);
      while remaining != {}
        invariant remaining <= source.Keys && done == source.Keys - remaining
        invariant entries == NestedMerged(initial, RestrictTo(source, done))
        decreases |remaining|
      {
        var key :| key in remaining;
        ghost var before := entries;
        NestedMergedStep(initial, source, done, key);
        MergeEntry(key, source[key]);
        assert entries == MergedAt(before, key, source[key]);
        remaining := remaining - {key};
        done := done + {key};
      }
      RestrictToWhole(source, done);
    }
  }

  /** Merging none of the argument's keys changes nothing. */
  lemma NestedMergedNothing<K, H, V>(a: map<K, map<H, V>>, b: map<K, map<H, V>>)
    ensures NestedMerged(a, RestrictTo(b, {})) == a
  {
    var r := NestedMerged(a, RestrictTo(b, {}));
    assert r.Keys == a.Keys;
    forall k | k in r
      ensures r[k] == a[k]
    {
    }
  }

  /** Merging one more key of the argument updates only that key. */
  lemma NestedMergedStep<K, H, V>(a: map<K, map<H, V>>, b: map<K, map<H, V>>, done: set<K>, key: K)
    requires key in b && key !in done
    ensures NestedMerged(a, RestrictTo(b, done + {key}))
              == MergedAt(NestedMerged(a, RestrictTo(b, done)), key, b[key])
  {
    var small, large := RestrictTo(b, done), RestrictTo(b, done + {key});
    assert key !in small && key in large && large[key] == b[key];
    assert forall k :: k != key ==> (k in large <==> k in small);
    var before := NestedMerged(a, small);
    var after := NestedMerged(a, large);
    var expected := MergedAt(before, key, b[key]);
    assert after.Keys == expected.Keys;
    forall k | k in after
      ensures after[k] == expected[k]
    {
      if k == key {
        assert after[k] == (if k in a then a[k] else map[]) + b[k];
        if key in a {
          assert before[key] == a[key];
        }
      } else if k in small {
        assert large[k] == small[k];
      } else {
        assert k !in large;
      }
    }
  }

  // The equality operators. Each walks the keys of `lhs`, in no particular
  // order, and stops at the first key that fails.

  /** `==` for plain values, as written: each key of `lhs` must be in `rhs`
      with an equal value; keys only `rhs` has are never looked at. */
  method Equals<K, V(==)>(lhs: map<K, V>, rhs: map<K, V>) returns (b: bool)
    ensures b <==> Submap(lhs, rhs)
  {
    var remaining := lhs.Keys;
    while remaining != {}
      invariant remaining <= lhs.Keys
      invariant forall k :: k in lhs && k !in remaining ==> k in rhs && rhs[k] == lhs[k]
      decreases |remaining|
    {
      var key :| key in remaining;
      if !(key in rhs && lhs[key] == rhs[key]) {
        return false;
      }
      remaining := remaining - {key};
    }
    return true;
  }

  /** The empty dictionary "equals" any dictionary under the plain `==`, and
      the operator is not symmetric. */
  lemma EqualsIsOneSided()
    ensures Submap(map[], map[0 := 1])
    ensures !Submap(map[0 := 1], map[])
    ensures map[] != map[0 := 1]
  {
    assert 0 in map[0 := 1];
  }

  /** The plain `==` as evidently intended: inclusion both ways, which is
      equality of the dictionaries. */
  method EqualsBothWays<K, V(==)>(lhs: map<K, V>, rhs: map<K, V>) returns (b: bool)
    ensures b <==> lhs == rhs
  {
    var included := Equals(lhs, rhs);
    var includes := Equals(rhs, lhs);
    SubmapBothWays(lhs, rhs);
    b := included && includes;
  }

  /** `==` for array values, as written: each key of `lhs` must be in `rhs`
      with an array of the same count and equal elements. */
  method ArrayEquals<K, E(==)>(lhs: map<K, seq<E>>, rhs: map<K, seq<E>>) returns (b: bool)
    ensures b <==> Submap(lhs, rhs)
  {
    var remaining := lhs.Keys;
    while remaining != {}
      invariant remaining <= lhs.Keys
      invariant forall k :: k in lhs && k !in remaining ==> k in rhs && rhs[k] == lhs[k]
      decreases |remaining|
    {
      var key :| key in remaining;
      if key !in rhs {
        return false;
      }
      var lhsArray, rhsArray := lhs[key], rhs[key];
      if |lhsArray| != |rhsArray| {
        return false;
      }
      for i := 0 to |lhsArray|
        invariant forall j :: 0 <= j < i ==> lhsArray[j] == rhsArray[j]
      {
        if lhsArray[i] != rhsArray[i] {
          return false;
        }
      }
      assert lhsArray == rhsArray;
      remaining := remaining - {key};
    }
    return true;
  }

  /** Like the plain `==`, the array-valued `==` accepts any `rhs` that has
      more keys. */
  lemma ArrayEqualsIsOneSided()
    ensures Submap(map[], map[0 := [1]])
    ensures map[] != map[0 := [1]]
  {
    assert 0 in map[0 := [1]];
  }

  /** `==` for nested dictionaries, as written: the guard continues only when
      the sub-dictionaries differ under the plain `!=`, so it returns false
      as soon as a sub-dictionary of `lhs` is included in its counterpart. */
  method NestedEquals<K, H, V(==)>(lhs: map<K, map<H, V>>, rhs: map<K, map<H, V>>) returns (b: bool)
    ensures b <==> forall k :: k in lhs ==> k in rhs && !Submap(lhs[k], rhs[k])
  {
    var remaining := lhs.Keys;
    while remaining != {}
      invariant remaining <= lhs.Keys
      invariant forall k :: k in lhs && k !in remaining ==> k in rhs && !Submap(lhs[k], rhs[k])
      decreases |remaining|
    {
      var key :| key in remaining;
      if key !in rhs {
        return false;
      }
      var same := Equals(lhs[key], rhs[key]);
      if !(!same) {
        return false;
      }
      remaining := remaining - {key};
    }
    return true;
  }

  /** The inverted guard makes a non-empty nested dictionary unequal to
      itself. */
  lemma NestedEqualsIsInverted()
    ensures var m: map<int, map<int, int>> := map[0 := map[0 := 0]];
            !(forall k :: k in m ==> k in m && !Submap(m[k], m[k]))
  {
    var m: map<int, map<int, int>> := map[0 := map[0 := 0]];
    assert 0 in m && Submap(m[0], m[0]);
  }

  /** `==` for dictionaries of array-valued dictionaries, as written: each key
      of `lhs` must be in `rhs`, and the sub-dictionaries must pass the
      array-valued `==`, so inclusion is checked one way at both levels. */
  method NestedArrayEquals<K, H, E(==)>(lhs: map<K, map<H, seq<E>>>, rhs: map<K, map<H, seq<E>>>)
    returns (b: bool)
    ensures b <==> forall k :: k in lhs ==> k in rhs && Submap(lhs[k], rhs[k])
  {
    var remaining := lhs.Keys;
    while remaining != {}
      invariant remaining <= lhs.Keys
      invariant forall k :: k in lhs && k !in remaining ==> k in rhs && Submap(lhs[k], rhs[k])
      decreases |remaining|
    {
      var key :| key in remaining;
      if key !in rhs {
        return false;
      }
      var same := ArrayEquals(lhs[key], rhs[key]);
      if !same {
        return false;
      }
      remaining := remaining - {key};
    }
    return true;
  }

  /** Both nested `==` operators pass a left side whose one sub-dictionary is
      smaller than the right side's. */
  lemma NestedArrayEqualsIsOneSided()
    ensures var lhs: map<int, map<int, seq<int>>> := map[0 := map[]];
            var rhs: map<int, map<int, seq<int>>> := map[0 := map[0 := [1]]];
            (forall k :: k in lhs ==> k in rhs && Submap(lhs[k], rhs[k])) && lhs != rhs
  {
    var rhs: map<int, map<int, seq<int>>> := map[0 := map[0 := [1]]];
    assert 0 in rhs[0];
  }

  /** The nested `==` as evidently intended: the same keys, and equal
      sub-dictionaries under each. */
  method NestedEqualsBothWays<K, H, V(==)>(lhs: map<K, map<H, V>>, rhs: map<K, map<H, V>>)
    returns (b: bool)
    ensures b <==> lhs == rhs
  {
    var remaining := lhs.Keys;
    while remaining != {}
      invariant remaining <= lhs.Keys
      invariant forall k :: k in lhs && k !in remaining ==> k in rhs && rhs[k] == lhs[k]
      decreases |remaining|
    {
      var key :| key in remaining;
      if key !in rhs {
        return false;
      }
      var same := EqualsBothWays(lhs[key], rhs[key]);
      if !same {
        return false;
      }
      remaining := remaining - {key};
    }
    if lhs.Keys != rhs.Keys {
      return false;
    }
    return true;
  }
}
