/** `Array + Element?` and `removing(at:)` (Collections/ArrayExtensions.swift). */
module ArrayExtensions {
  import opened Wrappers
  import opened MutableArrays
  import ListProcessing

  /** `lhs + rhs` for an optional `rhs`: appends the element if there is one. */
  function AppendOptional<T>(lhs: seq<T>, rhs: Option<T>): (r: seq<T>)
    ensures rhs.None? ==> r == lhs
    ensures rhs.Some? ==> r == lhs + [rhs.value]
  {
    match rhs
    case Some(element) => ListProcessing.Append(lhs, element)
    case None => lhs
  }

  /** The array without the element at `index`; every later element moves one
      place left. */
  function WithoutElement<T>(s: seq<T>, index: int): (r: seq<T>)
    requires 0 <= index < |s|
    ensures |r| == |s| - 1
    ensures forall j :: 0 <= j < index ==> r[j] == s[j]
    ensures forall j :: index <= j < |r| ==> r[j] == s[j + 1]
    ensures multiset(r) + multiset{s[index]} == multiset(s)
  {
    assert s == s[..index] + [s[index]] + s[index + 1..];
    s[..index] + s[index + 1..]
  }

  /** `removing(at:)`: copies the array and removes from the copy; the argument is a
      value and stays as it was. Traps, like `remove(at:)`, outside the array. */
  method Removing<T>(source: seq<T>, index: int) returns (r: seq<T>)
    requires 0 <= index < |source|
    ensures r == WithoutElement(source, index)
  {
    var copy := new MutableArray(source);
    var _ := copy.RemoveAt(index);
    r := copy.elements;
  }
}
