/** `SortedDictionary` (Collections/SortedDictionary.swift): a `SortedArray` of
    keys beside a map from keys to values, iterated in key order. */
module SortedDictionaries {
  import opened Wrappers
  import opened SortedArrays
  import opened MapFacts

  class SortedDictionary<V> {
    var keys: SortedArray
    var values: map<int, V>

    /** The keys are sorted and are exactly the keys that have values. */
    predicate Valid()
      reads this, keys
    {
      keys.Valid() && (set k | k in keys.elements) == values.Keys
    }

    /** `init()`: empty. */
    constructor ()
      ensures Valid() && fresh(keys)
      ensures keys.elements == [] && values == map[]
    {
      keys := new SortedArray([]);
      values := map[];
    }

    /** `insert(_:key:)`: the key goes into the sorted keys, even when it is
        already there, and the value is set. */
    method Insert(value: V, key: int)
      requires Valid()
      modifies this, keys
      ensures Valid() && keys == old(keys)
      ensures keys.elements == InsertSorted(old(keys.elements), key)
      ensures values == old(values)[key := value]
    {
      keys.Insert(key);
      InsertSortedSpec(old(keys.elements), key);
      values := values[key := value];
    }

    /** What `insert(_:key:)` is meant to do: a key that already has a value
        keeps its one place among the keys and only the value changes. */
    method InsertUnique(value: V, key: int)
      requires Valid()
      modifies this, keys
      ensures Valid() && keys == old(keys)
      ensures key in old(values) ==> keys.elements == old(keys.elements)
      ensures key !in old(values) ==> keys.elements == InsertSorted(old(keys.elements), key)
      ensures values == old(values)[key := value]
      ensures StrictlySorted(old(keys.elements)) ==> StrictlySorted(keys.elements)
    {
      if key !in values {
        keys.Insert(key);
        InsertSortedSpec(old(keys.elements), key);
        if StrictlySorted(old(keys.elements)) {
          InsertAbsentKeepsStrict(old(keys.elements), key);
        }
      }
      values := values[key := value];
    }

    /** `insertContents(of:)`: every pair of `other` in its key order. The
        pairs are read before any insertion, as Swift's value semantics do
        even when `other` is the receiver. */
    method InsertContents(other: SortedDictionary<V>)
      requires Valid() && other.Valid()
      // Swift's `SortedArray` is a value, so two dictionaries never share one.
      requires other == this || other.keys != keys
      modifies this, keys
      ensures Valid() && keys == old(keys)
      ensures keys.elements == InsertAll(old(keys.elements), old(other.keys.elements))
      ensures values == old(values) + old(other.values)
    {
      var ks := other.keys.elements;
      var vs := other.values;
      var i := 0;
      while i < |ks|
        invariant 0 <= i <= |ks|
        invariant (set k | k in ks) == vs.Keys
        invariant Valid() && keys == old(keys)
        invariant keys.elements == InsertAll(old(keys.elements), ks[..i])
        invariant values == old(values) + Restrict(vs, ks[..i])
      {
        assert ks[i] in vs;
        InsertAllPrefixStep(old(keys.elements), ks, i);
        RestrictPrefixStep(old(values), vs, ks, i);
        Insert(vs[ks[i]], ks[i]);
        i := i + 1;
      }
      assert ks[..i] == ks;
      RestrictAll(vs, ks);
    }

    /** `value(at:)`: nothing at or past the end; a negative index traps in
        the keys' subscript, so it is excluded. */
    function ValueAt(index: int): (r: Option<V>)
      requires index >= 0
      reads this, keys
      ensures index >= |keys.elements| ==> r.None?
      ensures index < |keys.elements| && keys.elements[index] in values ==>
                r == Some(values[keys.elements[index]])
      ensures Valid() ==> (r.Some? <==> index < |keys.elements|)
    {
      if index >= |keys.elements| then None
      else if keys.elements[index] in values then Some(values[keys.elements[index]])
      else None
    }

    /** `endIndex`: the number of keys. */
    function EndIndex(): (r: int)
      reads this, keys
      ensures r == |keys.elements| && r >= 0
    {
      |keys.elements|
    }

    /** `index(after:)`, which traps at `endIndex`. */
    function IndexAfter(i: int): (r: int)
      requires i != EndIndex()
      reads this, keys
      ensures r - 1 == i && r != EndIndex() + 1
    {
      i + 1
    }

    /** The positional subscript: the `index`-th key and its value. The
        force-unwrap needs every key to have a value. */
    function At(index: int): (r: (int, V))
      requires Valid() && 0 <= index < |keys.elements|
      reads this, keys
      ensures r.0 in values && values[r.0] == r.1
      ensures r.0 == keys.elements[index]
      ensures forall j :: 0 <= j < index ==> keys.elements[j] <= r.0
    {
      (keys.elements[index], values[keys.elements[index]])
    }
  }

  /** Ascending without repeats: every key has exactly one position. */
  predicate StrictlySorted(s: seq<int>)
  {
    forall i, j :: 0 <= i < j < |s| ==> s[i] < s[j]
  }

  /** Inserting a key that is not there yet keeps the keys free of repeats. */
  lemma InsertAbsentKeepsStrict(s: seq<int>, key: int)
    requires StrictlySorted(s) && key !in s
    ensures StrictlySorted(InsertSorted(s, key))
  {
    var p := LowerBound(s, key);
    InsertSortedLayout(s, key);
    forall i | p <= i < |s|
      ensures s[i] > key
    {
      assert s[i] in s;
      assert i > 0 ==> s[i - 1] < s[i];
    }
  }

  /** As written, `insert(_:key:)` on a key that is already present adds a
      second copy of it to the keys: the dictionary then has more positions
      than entries, and the pair is visited twice. */
  lemma InsertPresentKeyRepeatsIt(s: seq<int>, key: int)
    requires Sorted(s) && key in s
    ensures |InsertSorted(s, key)| == |s| + 1
    ensures multiset(InsertSorted(s, key))[key] == multiset(s)[key] + 1
    ensures (set k | k in InsertSorted(s, key)) == (set k | k in s)
    ensures !StrictlySorted(InsertSorted(s, key))
  {
    InsertSortedSpec(s, key);
    var r := InsertSorted(s, key);
    forall k | k in r
      ensures k in s
    {
      assert k in multiset(r);
    }
    forall k | k in s
      ensures k in r
    {
      assert k in multiset(s);
    }
    var p := LowerBound(s, key);
    InsertSortedLayout(s, key);
    var j :| 0 <= j < |s| && s[j] == key;
    assert p <= j;
    assert s[p] <= s[j];
    assert r[p] == r[p + 1];
  }

  /** The dictionary-literal initialiser: every pair inserted in literal
      order. */
  method FromLiteral<V>(pairs: seq<(int, V)>) returns (d: SortedDictionary<V>)
    ensures fresh(d) && fresh(d.keys) && d.Valid()
    ensures d.keys.elements == Sort(KeysOf(pairs))
    ensures d.values == AssignAll(map[], pairs)
  {
    d := new SortedDictionary();
    var ks := KeysOf(pairs);
    var i := 0;
    while i < |pairs|
      invariant 0 <= i <= |pairs|
      invariant fresh(d) && fresh(d.keys) && d.Valid()
      invariant d.keys.elements == InsertAll([], ks[..i])
      invariant d.values == AssignAll(map[], pairs[..i])
    {
      InsertAllPrefixStep([], ks, i);
      AssignAllPrefixStep(map[], pairs, i);
      d.Insert(pairs[i].1, pairs[i].0);
      i := i + 1;
    }
    assert ks[..i] == ks;
    assert pairs[..i] == pairs;
  }

  /** Whatever the literal order, the keys come out sorted, holding exactly the
      literal's keys, and a key takes the value of its last pair. */
  lemma LiteralIsOrderedByKey<V>(pairs: seq<(int, V)>, i: nat)
    requires i < |pairs|
    requires forall j :: i < j < |pairs| ==> pairs[j].0 != pairs[i].0
    ensures Sorted(Sort(KeysOf(pairs)))
    ensures multiset(Sort(KeysOf(pairs))) == multiset(KeysOf(pairs))
    ensures AssignAll(map[], pairs)[pairs[i].0] == pairs[i].1
  {
    SortSpec(KeysOf(pairs), []);
    AssignAllLastWins(map[], pairs, i);
  }
}
