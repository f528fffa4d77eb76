/** Map facts shared by the dictionary types: assigning a sequence of pairs,
    and the part of a map that a sequence of keys selects. */
module MapFacts {

  /** The map after assigning each pair in turn; a later pair wins. */
  function AssignAll<K, V>(m: map<K, V>, pairs: seq<(K, V)>): (r: map<K, V>)
    ensures r.Keys == m.Keys + set i | 0 <= i < |pairs| :: pairs[i].0
    decreases |pairs|
  {
    if |pairs| == 0 then m
    else
      var last := pairs[|pairs| - 1];
      AssignAll(m, pairs[..|pairs| - 1])[last.0 := last.1]
  }

  /** Assigning one more pair of `pairs` extends the previous result. */
  lemma AssignAllPrefixStep<K, V>(m: map<K, V>, pairs: seq<(K, V)>, i: int)
    requires 0 <= i < |pairs|
    ensures AssignAll(m, pairs[..i + 1]) == AssignAll(m, pairs[..i])[pairs[i].0 := pairs[i].1]
  {
    assert pairs[..i + 1][..i] == pairs[..i];
  }

  /** The keys of a sequence of pairs, in order. */
  function KeysOf<K, V>(pairs: seq<(K, V)>): (r: seq<K>)
    ensures |r| == |pairs| && forall i :: 0 <= i < |pairs| ==> r[i] == pairs[i].0
  {
    seq(|pairs|, i requires 0 <= i < |pairs| => pairs[i].0)
  }

  /** A key assigned by any pair takes the value of the last pair naming it. */
  lemma {:induction false} AssignAllLastWins<K, V>(m: map<K, V>, pairs: seq<(K, V)>, i: nat)
    requires i < |pairs|
    requires forall j :: i < j < |pairs| ==> pairs[j].0 != pairs[i].0
    ensures AssignAll(m, pairs)[pairs[i].0] == pairs[i].1
    decreases |pairs|
  {
    if i < |pairs| - 1 {
      AssignAllLastWins(m, pairs[..|pairs| - 1], i);
    }
  }

  /** The entries of `m` whose keys appear in `ks`. */
  function Restrict<K, V>(m: map<K, V>, ks: seq<K>): (r: map<K, V>)
    ensures r.Keys == m.Keys * set k | k in ks
    ensures forall k :: k in r ==> r[k] == m[k]
  {
    map k | k in ks && k in m :: m[k]
  }

  lemma RestrictStep<K, V>(base: map<K, V>, m: map<K, V>, ks: seq<K>, k: K)
    requires k in m
    ensures base + Restrict(m, ks + [k]) == (base + Restrict(m, ks))[k := m[k]]
  {
  }

  /** `RestrictStep` for a growing prefix of `ks`. */
  lemma RestrictPrefixStep<K, V>(base: map<K, V>, m: map<K, V>, ks: seq<K>, i: int)
    requires 0 <= i < |ks| && ks[i] in m
    ensures base + Restrict(m, ks[..i + 1]) == (base + Restrict(m, ks[..i]))[ks[i] := m[ks[i]]]
  {
    assert ks[..i + 1] == ks[..i] + [ks[i]];
    RestrictStep(base, m, ks[..i], ks[i]);
  }

  lemma RestrictAll<K, V>(m: map<K, V>, ks: seq<K>)
    requires (set k | k in ks) == m.Keys
    ensures Restrict(m, ks) == m
  {
  }

  /** The entries of `m` whose keys are in `ks`. */
  function RestrictTo<K, V>(m: map<K, V>, ks: set<K>): (r: map<K, V>)
    ensures r.Keys == m.Keys * ks
    ensures forall k :: k in r ==> r[k] == m[k]
  {
    map k | k in m.Keys * ks :: m[k]
  }

  /** Restricting to a superset of the keys changes nothing. */
  lemma RestrictToWhole<K, V>(m: map<K, V>, ks: set<K>)
    requires m.Keys <= ks
    ensures RestrictTo(m, ks) == m
  {
  }

  /** Taking one more key into the restriction assigns that key. */
  lemma RestrictToStep<K, V>(base: map<K, V>, m: map<K, V>, done: set<K>, k: K)
    requires k in m
    ensures base + RestrictTo(m, done + {k}) == (base + RestrictTo(m, done))[k := m[k]]
  {
    var lhs := base + RestrictTo(m, done + {k});
    var rhs := (base + RestrictTo(m, done))[k := m[k]];
    assert lhs.Keys == rhs.Keys;
    forall j | j in lhs
      ensures lhs[j] == rhs[j]
    {
    }
  }
}
