/** `Array.split(at:)` (Collections/Split.swift) and the prefix/element/suffix split
    that `Zipper.move(to:)` relies on. */
module Split {
  import opened Wrappers

  /** Splits `s` into the elements before `index` and those from `index` on;
      `None` when `index` lies outside `[0, |s|]`. */
  function SplitAt<T>(s: seq<T>, index: int): (r: Option<(seq<T>, seq<T>)>)
    ensures r.None? <==> index < 0 || index > |s|
    ensures r.Some? ==> r.value.0 + r.value.1 == s
    ensures r.Some? ==> |r.value.0| == index && |r.value.1| == |s| - index
  {
    if index < 0 || index > |s| then None
    else
      var left := s[..index];
      var right := if index == |s| then [] else s[index..];
      assert left + right == s;
      Some((left, right))
  }

  /** The elements before `index`, the element at `index` and the elements after
      it; `None` when `index` is not a valid position of `s`. */
  function SplitAndExtractElement<T>(s: seq<T>, index: int): (r: Option<(seq<T>, T, seq<T>)>)
    ensures r.None? <==> index < 0 || index >= |s|
    ensures r.Some? ==> r.value.0 + [r.value.1] + r.value.2 == s
    ensures r.Some? ==> |r.value.0| == index && r.value.1 == s[index]
  {
    if index < 0 || index >= |s| then None
    else
      assert s[..index] + [s[index]] + s[index + 1..] == s;
      Some((s[..index], s[index], s[index + 1..]))
  }

  /** Splitting at either end leaves one side empty. */
  lemma SplitAtEnds<T>(s: seq<T>)
    ensures SplitAt(s, 0) == Some(([], s))
    ensures SplitAt(s, |s|) == Some((s, []))
  {
    assert s[..|s|] == s;
    assert s[0..] == s;
  }
}
