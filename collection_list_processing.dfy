/** `head`, `tail` and `destructured` for any `Collection`
    (Sources/Collections/ListProcessing.swift); a collection is modelled by the
    sequence of its elements, and the tail is always copied into an array. */
module CollectionListProcessing {
  import opened Wrappers
  import ListProcessing

  /** The collection's `first`, if any. */
  function CollectionHead<T>(c: seq<T>): (r: Option<T>)
    ensures r.None? <==> |c| == 0
    ensures r.Some? ==> r.value == c[0]
  {
    if |c| == 0 then None else Some(c[0])
  }

  /** `Array(dropFirst())` when the collection is not empty. */
  function CollectionTail<T>(c: seq<T>): (r: Option<seq<T>>)
    ensures r.None? <==> |c| == 0
    ensures r.Some? ==> |r.value| == |c| - 1 && forall i :: 0 <= i < |r.value| ==> r.value[i] == c[i + 1]
  {
    if |c| == 0 then None else Some(DropFirst(c))
  }

  /** Swift's `dropFirst()`: every element but the first; empty stays empty. */
  function DropFirst<T>(c: seq<T>): seq<T>
  {
    if |c| == 0 then [] else c[1..]
  }

  /** Head and tail together, if the collection is not empty. */
  function CollectionDestructured<T>(c: seq<T>): (r: Option<(T, seq<T>)>)
    ensures r.None? <==> |c| == 0
    ensures r.Some? ==> [r.value.0] + r.value.1 == c
  {
    match (CollectionHead(c), CollectionTail(c))
    case (Some(h), Some(t)) =>
      assert [h] + t == c;
      Some((h, t))
    case _ => None
  }

  /** On an array, the collection versions agree with the array versions. */
  lemma AgreesWithArrayVersions<T>(c: seq<T>)
    ensures CollectionHead(c) == ListProcessing.Head(c)
    ensures CollectionTail(c) == ListProcessing.Tail(c)
    ensures CollectionDestructured(c) == ListProcessing.Destructured(c)
  {
  }
}
