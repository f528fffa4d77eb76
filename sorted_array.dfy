/** `SortedArray` (Collections/SortedArray.swift): an array of comparable
    elements that keeps itself in ascending order. `Comparable` is modelled by
    `int`. */
module SortedArrays {
  import opened Wrappers

  /** Ascending order, duplicates allowed. */
  predicate Sorted(s: seq<int>)
  {
    forall i, j :: 0 <= i < j < |s| ==> s[i] <= s[j]
  }

  /** The lower bound of `e` in `s`: the number of leading elements below `e`. */
  function LowerBound(s: seq<int>, e: int): (p: nat)
    ensures p <= |s|
    ensures forall i :: 0 <= i < p ==> s[i] < e
    ensures p < |s| ==> s[p] >= e
  {
    if |s| == 0 || s[0] >= e then 0 else 1 + LowerBound(s[1..], e)
  }

  /** In a sorted sequence the lower bound splits the elements below `e` from
      the others, and it is the only position that does. */
  lemma LowerBoundSplits(s: seq<int>, e: int, p: int)
    requires Sorted(s)
    ensures forall i :: LowerBound(s, e) <= i < |s| ==> s[i] >= e
    ensures 0 <= p <= |s| && (forall i :: 0 <= i < p ==> s[i] < e)
              && (forall i :: p <= i < |s| ==> s[i] >= e)
            <==> p == LowerBound(s, e)
  {
    var q := LowerBound(s, e);
    if q < |s| {
      assert forall i :: q <= i < |s| ==> s[q] <= s[i];
    }
    if 0 <= p <= |s| && (forall i :: 0 <= i < p ==> s[i] < e)
       && (forall i :: p <= i < |s| ==> s[i] >= e) {
      if p < |s| {
        assert s[p] >= e;
      }
      if q < |s| {
        assert s[q] >= e;
      }
    }
  }

  /** Where `insert` puts `e`: at its lower bound. */
  function InsertSorted(s: seq<int>, e: int): (r: seq<int>)
  {
    var p := LowerBound(s, e);
    s[..p] + [e] + s[p..]
  }

  /** `insert` keeps the order, adds exactly one `e` and nothing else. */
  lemma InsertSortedSpec(s: seq<int>, e: int)
    requires Sorted(s)
    ensures Sorted(InsertSorted(s, e))
    ensures |InsertSorted(s, e)| == |s| + 1
    ensures multiset(InsertSorted(s, e)) == multiset(s) + multiset{e}
  {
    InsertSortedKeepsOrder(s, e);
    InsertSortedCounts(s, e);
  }

  /** Where each element ends up: those below the lower bound stay, `e` sits
      at it, the rest move up by one. */
  lemma InsertSortedLayout(s: seq<int>, e: int)
    ensures |InsertSorted(s, e)| == |s| + 1
    ensures forall i :: 0 <= i < LowerBound(s, e) ==> InsertSorted(s, e)[i] == s[i]
    ensures InsertSorted(s, e)[LowerBound(s, e)] == e
    ensures forall i :: LowerBound(s, e) < i <= |s| ==> InsertSorted(s, e)[i] == s[i - 1]
  {
  }

  lemma InsertSortedKeepsOrder(s: seq<int>, e: int)
    requires Sorted(s)
    ensures Sorted(InsertSorted(s, e))
  {
    var p := LowerBound(s, e);
    LowerBoundSplits(s, e, p);
    InsertSortedLayout(s, e);
  }

  lemma InsertSortedCounts(s: seq<int>, e: int)
    ensures |InsertSorted(s, e)| == |s| + 1
    ensures multiset(InsertSorted(s, e)) == multiset(s) + multiset{e}
  {
    var p := LowerBound(s, e);
    assert s == s[..p] + s[p..];
    assert multiset(s) == multiset(s[..p]) + multiset(s[p..]);
  }

  /** Inserting every element of `xs`, first to last. */
  function InsertAll(s: seq<int>, xs: seq<int>): seq<int>
    decreases |xs|
  {
    if |xs| == 0 then s else InsertSorted(InsertAll(s, xs[..|xs| - 1]), xs[|xs| - 1])
  }

  /** Inserting one more element of `xs` extends the previous result. */
  lemma InsertAllPrefixStep(s: seq<int>, xs: seq<int>, i: int)
    requires 0 <= i < |xs|
    ensures InsertAll(s, xs[..i + 1]) == InsertSorted(InsertAll(s, xs[..i]), xs[i])
  {
    assert xs[..i + 1][..i] == xs[..i];
  }

  lemma {:induction false} InsertAllSpec(s: seq<int>, xs: seq<int>)
    requires Sorted(s)
    ensures Sorted(InsertAll(s, xs))
    ensures multiset(InsertAll(s, xs)) == multiset(s) + multiset(xs)
    decreases |xs|
  {
    if |xs| > 0 {
      var init, last := xs[..|xs| - 1], xs[|xs| - 1];
      var prev := InsertAll(s, init);
      InsertAllSpec(s, init);
      InsertSortedSpec(prev, last);
      assert InsertAll(s, xs) == InsertSorted(prev, last);
      MultisetBack(xs);
    }
  }

  /** Two sorted sequences holding the same multiset are the same sequence. */
  lemma {:induction false} SortedUnique(a: seq<int>, b: seq<int>)
    requires Sorted(a) && Sorted(b) && multiset(a) == multiset(b)
    ensures a == b
    decreases |a|
  {
    assert |a| == |multiset(a)| == |multiset(b)| == |b|;
    if |a| > 0 {
      SameLeast(a, b);
      SortedFront(a);
      SortedFront(b);
      SortedUnique(a[1..], b[1..]);
      assert a == [a[0]] + a[1..] && b == [b[0]] + b[1..];
    }
  }

  /** Two non-empty sorted sequences with the same multiset start alike, and
      what follows holds the same multiset. */
  lemma SameLeast(a: seq<int>, b: seq<int>)
    requires Sorted(a) && Sorted(b) && multiset(a) == multiset(b) && |a| > 0 && |b| > 0
    ensures a[0] == b[0]
    ensures multiset(a[1..]) == multiset(b[1..])
  {
    SortedFront(a);
    SortedFront(b);
    assert a[0] in multiset(b) && b[0] in multiset(a);
    MultisetFront(a);
    MultisetFront(b);
  }

  /** A non-empty sorted sequence starts with its least element and stays
      sorted without it. */
  lemma SortedFront(a: seq<int>)
    requires Sorted(a) && |a| > 0
    ensures Sorted(a[1..])
    ensures forall x :: x in a ==> a[0] <= x
  {
  }

  lemma MultisetBack(a: seq<int>)
    requires |a| > 0
    ensures multiset(a) == multiset(a[..|a| - 1]) + multiset{a[|a| - 1]}
  {
    assert a == a[..|a| - 1] + [a[|a| - 1]];
  }

  lemma MultisetFront(a: seq<int>)
    requires |a| > 0
    ensures multiset(a[1..]) == multiset(a) - multiset{a[0]}
  {
    assert a == [a[0]] + a[1..];
  }

  /** The sorted arrangement of `s`, as the initialiser builds it. */
  function Sort(s: seq<int>): seq<int>
  {
    InsertAll([], s)
  }

  /** `Sort` orders `s` without adding or losing elements, and it is the one
      sorted sequence with those elements, whichever algorithm produced it. */
  lemma SortSpec(s: seq<int>, t: seq<int>)
    ensures Sorted(Sort(s))
    ensures multiset(Sort(s)) == multiset(s)
    ensures Sorted(t) && multiset(t) == multiset(s) ==> t == Sort(s)
  {
    InsertAllSpec([], s);
    if Sorted(t) && multiset(t) == multiset(s) {
      SortedUnique(t, Sort(s));
    }
  }

  /** The first position holding `e`, as `Array.index(of:)` searches it. */
  function FirstIndex(s: seq<int>, e: int): (r: Option<nat>)
    ensures r.None? <==> e !in s
    ensures r.Some? ==> r.value < |s| && s[r.value] == e
                        && forall i :: 0 <= i < r.value ==> s[i] != e
  {
    if |s| == 0 then None
    else if s[0] == e then Some(0)
    else match FirstIndex(s[1..], e)
      case None => None
      case Some(i) => Some(i + 1)
  }

  /** What `remove(e)` leaves: `s` without its first `e`, or `s` itself. */
  function Removed(s: seq<int>, e: int): seq<int>
  {
    match FirstIndex(s, e)
    case None => s
    case Some(i) => s[..i] + s[i + 1..]
  }

  /** `remove` keeps the order and takes away exactly one `e` when there is
      one, and changes nothing otherwise. */
  lemma RemovedSpec(s: seq<int>, e: int)
    requires Sorted(s)
    ensures Sorted(Removed(s, e))
    ensures e in s ==> multiset(Removed(s, e)) == multiset(s) - multiset{e}
                       && |Removed(s, e)| == |s| - 1
    ensures e !in s ==> Removed(s, e) == s
  {
    match FirstIndex(s, e)
    case None =>
    case Some(i) =>
      DeletionKeepsOrder(s, i);
      assert s == s[..i] + [s[i]] + s[i + 1..];
      assert multiset(s) == multiset(s[..i]) + multiset{e} + multiset(s[i + 1..]);
  }

  lemma DeletionKeepsOrder(s: seq<int>, i: nat)
    requires Sorted(s) && i < |s|
    ensures Sorted(s[..i] + s[i + 1..])
  {
    var r := s[..i] + s[i + 1..];
    assert forall k :: 0 <= k < |r| ==> r[k] == if k < i then s[k] else s[k + 1];
    forall j, k | 0 <= j < k < |r|
      ensures r[j] <= r[k]
    {
      var sj := if j < i then j else j + 1;
      var sk := if k < i then k else k + 1;
      assert r[j] == s[sj] && r[k] == s[sk] && sj < sk;
    }
  }

  class SortedArray {
    var elements: seq<int>

    predicate Valid()
      reads this
    {
      Sorted(elements)
    }

    /** `init(_:)` and the array-literal initialiser: the sorted elements. */
    constructor (source: seq<int>)
      ensures Valid()
      ensures elements == Sort(source)
    {
      SortSpec(source, []);
      elements := Sort(source);
    }

    /** The private binary search `index(for:)`: the lower bound of `e`. */
    method IndexFor(e: int) returns (p: int)
      requires Valid()
      ensures 0 <= p <= |elements|
      ensures forall i :: 0 <= i < p ==> elements[i] < e
      ensures forall i :: p <= i < |elements| ==> elements[i] >= e
      ensures p == LowerBound(elements, e)
    {
      var start, end := 0, |elements|;
      while start < end
        invariant 0 <= start <= end <= |elements|
        invariant forall i :: 0 <= i < start ==> elements[i] < e
        invariant forall i :: end <= i < |elements| ==> elements[i] >= e
        decreases end - start
      {
        var middle := start + (end - start) / 2;
        if e > elements[middle] {
          start := middle + 1;
        } else {
          end := middle;
        }
      }
      p := start;
      LowerBoundSplits(elements, e, p);
    }

    /** `insert(_:)`. */
    method Insert(e: int)
      requires Valid()
      modifies this
      ensures Valid()
      ensures elements == InsertSorted(old(elements), e)
    {
      var index := IndexFor(e);
      InsertSortedSpec(elements, e);
      elements := elements[..index] + [e] + elements[index..];
    }

    /** `insert(contentsOf:)`: each element in turn. */
    method InsertContentsOf(xs: seq<int>)
      requires Valid()
      modifies this
      ensures Valid()
      ensures elements == InsertAll(old(elements), xs)
    {
      var i := 0;
      while i < |xs|
        invariant 0 <= i <= |xs|
        invariant Valid()
        invariant elements == InsertAll(old(elements), xs[..i])
      {
        InsertAllPrefixStep(old(elements), xs, i);
        Insert(xs[i]);
        i := i + 1;
      }
      assert xs[..i] == xs;
    }

    /** `remove(_:)`. */
    method Remove(e: int)
      requires Valid()
      modifies this
      ensures Valid()
      ensures elements == Removed(old(elements), e)
    {
      RemovedSpec(elements, e);
      match FirstIndex(elements, e)
      case None =>
      case Some(index) =>
        elements := elements[..index] + elements[index + 1..];
    }

    /** `index(of:)`: the first position of `e`, found by the binary search. */
    method IndexOf(e: int) returns (r: Option<int>)
      requires Valid()
      ensures r.None? <==> e !in elements
      ensures r.Some? ==> 0 <= r.value < |elements| && elements[r.value] == e
                          && forall i :: 0 <= i < r.value ==> elements[i] != e
      ensures r == (match FirstIndex(elements, e) case None => None case Some(i) => Some(i))
    {
      var index := IndexFor(e);
      if index < |elements| && elements[index] == e {
        r := Some(index);
      } else {
        r := None;
      }
    }

    /** `contains(_:)`. */
    method Contains(e: int) returns (b: bool)
      requires Valid()
      ensures b <==> e in elements
    {
      var index := IndexOf(e);
      b := index != None;
    }

    /** `min()`: the first element, which is the least. */
    function Min(): (r: Option<int>)
      requires Valid()
      reads this
      ensures r.None? <==> |elements| == 0
      ensures r.Some? ==> r.value in elements && forall x :: x in elements ==> r.value <= x
    {
      if |elements| == 0 then None else Some(elements[0])
    }

    /** `max()`: the last element, which is the greatest. */
    function Max(): (r: Option<int>)
      requires Valid()
      reads this
      ensures r.None? <==> |elements| == 0
      ensures r.Some? ==> r.value in elements && forall x :: x in elements ==> x <= r.value
    {
      if |elements| == 0 then None else Some(elements[|elements| - 1])
    }

    /** `index(after:)`, which asserts that `i` is before the end. */
    function IndexAfter(i: int): (r: int)
      requires i < |elements|
      reads this
      ensures r - 1 == i && r <= |elements|
    {
      i + 1
    }

    /** `index(before:)`, which asserts that `i` is after the start. */
    function IndexBefore(i: int): (r: int)
      requires i > 0
      reads this
      ensures r + 1 == i && 0 <= r
    {
      i - 1
    }
  }

  /** `+`: a copy of `lhs` with the contents of `rhs` inserted. */
  method Plus(lhs: SortedArray, rhs: SortedArray) returns (result: SortedArray)
    requires lhs.Valid() && rhs.Valid()
    ensures fresh(result) && result.Valid()
    ensures result.elements == InsertAll(lhs.elements, rhs.elements)
  {
    result := new SortedArray(lhs.elements);
    SortSpec(lhs.elements, lhs.elements);
    result.InsertContentsOf(rhs.elements);
  }

  /** `+` is the sorted multiset union, so it is commutative, and the empty
      array (`zero`, `identity`) is its unit on both sides. */
  lemma PlusIsSortedUnion(a: seq<int>, b: seq<int>)
    requires Sorted(a) && Sorted(b)
    ensures Sorted(InsertAll(a, b))
    ensures multiset(InsertAll(a, b)) == multiset(a) + multiset(b)
    ensures InsertAll(a, b) == InsertAll(b, a)
    ensures InsertAll([], b) == b && InsertAll(a, []) == a
  {
    InsertAllSpec(a, b);
    InsertAllSpec(b, a);
    SortedUnique(InsertAll(a, b), InsertAll(b, a));
    InsertAllSpec([], b);
    SortedUnique(InsertAll([], b), b);
  }

  /** `==` compares the element arrays; for sorted arrays that is the same as
      comparing them as multisets. */
  lemma EqualityIsMultisetEquality(a: SortedArray, b: SortedArray)
    requires a.Valid() && b.Valid()
    ensures a.elements == b.elements <==> multiset(a.elements) == multiset(b.elements)
  {
    if multiset(a.elements) == multiset(b.elements) {
      SortedUnique(a.elements, b.elements);
    }
  }
}
