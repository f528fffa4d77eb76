/** List-processing views of arrays and array slices
    (Collections/ListProcessing.swift): `head`, `tail`, `destructured`, and the
    prepend / append `+` operators. */
module ListProcessing {
  import opened Wrappers

  /** First element of an array, if any. */
  function Head<T>(s: seq<T>): (r: Option<T>)
    ensures r.None? <==> |s| == 0
    ensures r.Some? ==> r.value == s[0]
  {
    if |s| == 0 then None else Some(s[0])
  }

  /** All elements but the first, if the array is not empty. */
  function Tail<T>(s: seq<T>): (r: Option<seq<T>>)
    ensures r.None? <==> |s| == 0
    ensures r.Some? ==> |r.value| == |s| - 1
    ensures r.Some? ==> forall i :: 0 <= i < |r.value| ==> r.value[i] == s[i + 1]
  {
    if |s| == 0 then None else Some(s[1..])
  }

  /** Head and tail together. */
  function Destructured<T>(s: seq<T>): (r: Option<(T, seq<T>)>)
    ensures r.None? <==> |s| == 0
    ensures r.Some? ==> [r.value.0] + r.value.1 == s
  {
    match (Head(s), Tail(s))
    case (Some(h), Some(t)) =>
      assert [h] + t == s;
      Some((h, t))
    case _ => None
  }

  /** `head + tail`: a new array whose first element is `head`. */
  function Prepend<T>(head: T, tail: seq<T>): (r: seq<T>)
    ensures |r| == |tail| + 1 && r[0] == head && r[1..] == tail
  {
    [head] + tail
  }

  /** `list + item`: a new array with `item` after the elements of `list`. */
  function Append<T>(list: seq<T>, item: T): (r: seq<T>)
    ensures |r| == |list| + 1 && r[|list|] == item && r[..|list|] == list
  {
    list + [item]
  }

  /** Prepending and destructuring are inverse to each other. */
  lemma DestructuredPrepend<T>(head: T, tail: seq<T>)
    ensures Destructured(Prepend(head, tail)) == Some((head, tail))
  {
    var s := Prepend(head, tail);
    assert s[1..] == tail;
  }

  /** Every non-empty array is the prepending of its destructured parts. */
  lemma PrependDestructured<T>(s: seq<T>)
    requires |s| > 0
    ensures Destructured(s).Some?
    ensures Prepend(Destructured(s).value.0, Destructured(s).value.1) == s
  {
  }

  /** An `ArraySlice`: a window `[startIndex, endIndex)` onto a base array that keeps
      the base array's indices. */
  datatype ArraySlice<T> = ArraySlice(base: seq<T>, startIndex: nat, endIndex: nat) {

    ghost predicate Valid() {
      startIndex <= endIndex <= |base|
    }

    /** The elements the slice presents, in order. */
    function Elements(): seq<T>
      requires Valid()
    {
      base[startIndex..endIndex]
    }
  }

  /** First element of a slice, if any. */
  function SliceHead<T>(sl: ArraySlice<T>): (r: Option<T>)
    requires sl.Valid()
    ensures r == Head(sl.Elements())
  {
    if sl.startIndex == sl.endIndex then None else Some(sl.base[sl.startIndex])
  }

  /** The slice without its first element; it keeps the base array, so indices stay
      those of the base. */
  function SliceTail<T>(sl: ArraySlice<T>): (r: Option<ArraySlice<T>>)
    requires sl.Valid()
    ensures r.None? <==> sl.startIndex == sl.endIndex
    ensures r.Some? ==> r.value.Valid() && r.value.base == sl.base
    ensures r.Some? ==> r.value.startIndex == sl.startIndex + 1 && r.value.endIndex == sl.endIndex
    ensures r.Some? ==> Tail(sl.Elements()) == Some(r.value.Elements())
  {
    if sl.startIndex == sl.endIndex then None
    else Some(ArraySlice(sl.base, sl.startIndex + 1, sl.endIndex))
  }

  /** Head and tail of a slice together. */
  function SliceDestructured<T>(sl: ArraySlice<T>): (r: Option<(T, ArraySlice<T>)>)
    requires sl.Valid()
    ensures r.None? <==> sl.startIndex == sl.endIndex
    ensures r.Some? ==> r.value.1.Valid() && [r.value.0] + r.value.1.Elements() == sl.Elements()
  {
    match (SliceHead(sl), SliceTail(sl))
    case (Some(h), Some(t)) =>
      assert [h] + t.Elements() == sl.Elements();
      Some((h, t))
    case _ => None
  }
}
