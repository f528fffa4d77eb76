/** `subsets(cardinality:)` (Collections/Subsets.swift): every choice of `k`
    elements, in their original order. */
module Subsets {

  /** The binomial coefficient by Pascal's rule. */
  function Binomial(n: nat, k: nat): nat
  {
    if k == 0 then 1 else if n == 0 then 0 else Binomial(n - 1, k - 1) + Binomial(n - 1, k)
  }

  /** There is no way to choose more elements than there are. */
  lemma {:induction false} BinomialAboveN(n: nat, k: nat)
    requires k > n
    ensures Binomial(n, k) == 0
  {
    if n > 0 {
      BinomialAboveN(n - 1, k - 1);
      BinomialAboveN(n - 1, k);
    }
  }

  /** `sub` is `s` with some elements left out, in order. */
  predicate IsSubsequence<T(==)>(sub: seq<T>, s: seq<T>)
    decreases |s|
  {
    if |sub| == 0 then true
    else if |s| == 0 then false
    else (sub[0] == s[0] && IsSubsequence(sub[1..], s[1..])) || IsSubsequence(sub, s[1..])
  }

  /** The nested helper: the choices of `k` more elements from `s[index..]`,
      each appended to `prefix`; those that take `s[index]` come first. */
  function Choose<T>(s: seq<T>, k: int, prefix: seq<T>, index: nat): (r: seq<seq<T>>)
    requires index <= |s|
    decreases |s| - index
  {
    if k <= 0 then [prefix]
    else if index < |s| then
      var first := s[index];
      Choose(s, k - 1, prefix + [first], index + 1) + Choose(s, k, prefix, index + 1)
    else []
  }

  /** `subsets(cardinality:)`. */
  function SubsetsOf<T>(s: seq<T>, k: int): seq<seq<T>>
  {
    Choose(s, k, [], 0)
  }

  /** There are C(|s| - index, k) choices, or one for `k <= 0`. */
  lemma {:induction false} ChooseCount<T>(s: seq<T>, k: int, prefix: seq<T>, index: nat)
    requires index <= |s|
    ensures |Choose(s, k, prefix, index)| == if k <= 0 then 1 else Binomial(|s| - index, k)
    decreases |s| - index
  {
    if k > 0 && index < |s| {
      var n := |s| - index - 1;
      ChooseUnfold(s, k, prefix, index);
      ChooseCount(s, k - 1, prefix + [s[index]], index + 1);
      ChooseCount(s, k, prefix, index + 1);
      assert Binomial(n + 1, k) == Binomial(n, k - 1) + Binomial(n, k);
    }
  }

  /** Each choice is `prefix` followed by `k` more elements (none for
      `k <= 0`) taken in order from `s[index..]`. */
  lemma {:induction false} ChooseShape<T>(s: seq<T>, k: int, prefix: seq<T>, index: nat)
    requires index <= |s|
    ensures forall c :: c in Choose(s, k, prefix, index) ==>
              |c| == |prefix| + (if k <= 0 then 0 else k)
              && c[..|prefix|] == prefix
              && IsSubsequence(c[|prefix|..], s[index..])
    decreases |s| - index
  {
    if k <= 0 {
      forall c | c in Choose(s, k, prefix, index)
        ensures c[..|prefix|] == prefix && IsSubsequence(c[|prefix|..], s[index..])
      {
        assert c == prefix;
        assert c[|prefix|..] == [];
      }
    } else if index < |s| {
      var left := Choose(s, k - 1, prefix + [s[index]], index + 1);
      var right := Choose(s, k, prefix, index + 1);
      ChooseShape(s, k - 1, prefix + [s[index]], index + 1);
      ChooseShape(s, k, prefix, index + 1);
      forall c | c in left
        ensures |c| == |prefix| + k && c[..|prefix|] == prefix
        ensures IsSubsequence(c[|prefix|..], s[index..])
      {
        ChooseLeftStep(s, prefix, index, c);
      }
      forall c | c in right
        ensures IsSubsequence(c[|prefix|..], s[index..])
      {
        SkipStep(c[|prefix|..], s[index..]);
      }
    }
  }

  /** A choice that took `s[index]` after `prefix`. */
  lemma ChooseLeftStep<T>(s: seq<T>, prefix: seq<T>, index: nat, c: seq<T>)
    requires index < |s|
    requires |c| >= |prefix| + 1 && c[..|prefix| + 1] == prefix + [s[index]]
    requires IsSubsequence(c[|prefix| + 1..], s[index + 1..])
    ensures c[..|prefix|] == prefix
    ensures IsSubsequence(c[|prefix|..], s[index..])
  {
    assert c[..|prefix|] == c[..|prefix| + 1][..|prefix|];
    var tail := c[|prefix|..];
    assert tail[0] == s[index];
    assert tail[1..] == c[|prefix| + 1..];
    assert s[index..][0] == s[index] && s[index..][1..] == s[index + 1..];
  }

  /** Leaving out the first element of `s` keeps a subsequence one. */
  lemma SkipStep<T>(sub: seq<T>, s: seq<T>)
    requires |s| > 0 && IsSubsequence(sub, s[1..])
    ensures IsSubsequence(sub, s)
  {
  }

  /** Every choice made after `first` starts with `first`. */
  lemma ChooseStartsWith<T>(s: seq<T>, k: int, first: seq<T>, index: nat)
    requires index <= |s|
    ensures forall j :: 0 <= j < |Choose(s, k, first, index)| ==>
              |first| <= |Choose(s, k, first, index)[j]|
    ensures forall j, i :: 0 <= j < |Choose(s, k, first, index)| && 0 <= i < |first| ==>
              Choose(s, k, first, index)[j][i] == first[i]
  {
    var taken := Choose(s, k, first, index);
    ChooseShape(s, k, first, index);
    forall j | 0 <= j < |taken|
      ensures |first| <= |taken[j]|
    {
      assert taken[j] in taken;
    }
    forall j, i | 0 <= j < |taken| && 0 <= i < |first|
      ensures taken[j][i] == first[i]
    {
      var c := taken[j];
      assert c in taken;
      assert c[..|first|][i] == c[i];
    }
  }

  /** One step of the helper: the choices taking `s[index]`, then the rest. */
  lemma ChooseUnfold<T>(s: seq<T>, k: int, prefix: seq<T>, index: nat)
    requires index < |s| && k > 0
    ensures Choose(s, k, prefix, index)
            == Choose(s, k - 1, prefix + [s[index]], index + 1) + Choose(s, k, prefix, index + 1)
  {
  }

  /** There are C(|s| - index - 1, k - 1) choices that take `s[index]`. */
  lemma ChooseTakenCount<T>(s: seq<T>, k: int, prefix: seq<T>, index: nat)
    requires index < |s| && k > 0
    ensures |Choose(s, k - 1, prefix + [s[index]], index + 1)| == Binomial(|s| - index - 1, k - 1)
  {
    ChooseCount(s, k - 1, prefix + [s[index]], index + 1);
  }

  /** The choices that take `s[index]` are listed first. */
  lemma ChooseOrder<T>(s: seq<T>, k: int, prefix: seq<T>, index: nat)
    requires index < |s| && k > 0
    ensures forall j :: 0 <= j < Binomial(|s| - index - 1, k - 1) ==>
              j < |Choose(s, k, prefix, index)|
              && |prefix| < |Choose(s, k, prefix, index)[j]|
              && Choose(s, k, prefix, index)[j][|prefix|] == s[index]
  {
    var full := Choose(s, k, prefix, index);
    var left := Choose(s, k - 1, prefix + [s[index]], index + 1);
    ChooseUnfold(s, k, prefix, index);
    ChooseTakenCount(s, k, prefix, index);
    var first := prefix + [s[index]];
    ChooseStartsWith(s, k - 1, first, index + 1);
    forall j | 0 <= j < |left|
      ensures j < |full| && |prefix| < |full[j]| && full[j][|prefix|] == s[index]
    {
      assert full[j] == left[j];
      assert |prefix| < |first| <= |left[j]|;
      assert left[j][|prefix|] == first[|prefix|];
    }
  }

  /** The properties of `subsets(cardinality: k)`: `[[]]` for `k <= 0`,
      nothing when `k` exceeds the count, C(count, k) subsets otherwise, and
      each an in-order choice of exactly `k` elements. */
  lemma SubsetsSpec<T>(s: seq<T>, k: int)
    ensures k <= 0 ==> SubsetsOf(s, k) == [[]]
    ensures k > |s| ==> SubsetsOf(s, k) == []
    ensures k > 0 ==> |SubsetsOf(s, k)| == Binomial(|s|, k)
    ensures forall c :: c in SubsetsOf(s, k) ==>
              |c| == (if k <= 0 then 0 else k) && IsSubsequence(c, s)
  {
    ChooseCount(s, k, [], 0);
    ChooseShape(s, k, [], 0);
    assert s[0..] == s;
    if k > |s| {
      BinomialAboveN(|s|, k);
    }
    forall c | c in SubsetsOf(s, k)
      ensures IsSubsequence(c, s)
    {
      assert c[0..] == c;
    }
  }

  /** `[1, 2, 3]` has the pairs `[1, 2]`, `[1, 3]`, `[2, 3]`, in that order. */
  lemma PairsOfThree()
    ensures SubsetsOf([1, 2, 3], 2) == [[1, 2], [1, 3], [2, 3]]
  {
    var s := [1, 2, 3];
    var none: seq<seq<int>> := [];
    assert [1] + [s[1]] == [1, 2] && [1] + [s[2]] == [1, 3] && [2] + [s[2]] == [2, 3];
    assert [] + [s[0]] == [1] && [] + [s[1]] == [2] && [] + [s[2]] == [3];
    assert Choose(s, 1, [1], 3) == none && Choose(s, 1, [2], 3) == none;
    assert Choose(s, 1, [3], 3) == none && Choose(s, 2, [], 3) == none;
    assert Choose(s, 1, [1], 2) == [[1, 3]] + none;
    assert Choose(s, 1, [1], 1) == [[1, 2]] + [[1, 3]];
    assert Choose(s, 2, [], 2) == none + none;
    assert Choose(s, 1, [2], 2) == [[2, 3]] + none;
    assert Choose(s, 2, [], 1) == [[2, 3]] + none;
    assert Choose(s, 2, [], 0) == [[1, 2], [1, 3]] + [[2, 3]];
  }
}
