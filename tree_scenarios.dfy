/** Concrete trees and zippers from the repository's tests and documentation, with
    the results the general lemmas predict. */
module TreeScenarios {
  import opened Wrappers
  import opened Trees
  import opened Zippers

  /** Replacing the middle leaf of a three-leaf branch: leaves `[1, 0, 3]`. */
  lemma ReplaceMiddleLeaf()
    ensures ReplacingTreeAt(Branch(-1, [Leaf(1), Leaf(2), Leaf(3)]), 1, Leaf(0)).Ok?
    ensures Leaves(ReplacingTreeAt(Branch(-1, [Leaf(1), Leaf(2), Leaf(3)]), 1, Leaf(0)).value) == [1, 0, 3]
  {
    var t := Branch(-1, [Leaf(1), Leaf(2), Leaf(3)]);
    var r := ReplacingTreeAt(t, 1, Leaf(0)).value;
    assert r == Branch(-1, [Leaf(1), Leaf(0), Leaf(3)]);
    LeavesShape(r);
  }

  /** Errors found below the root: the path `[0, 0]` enters the leaf child of
      `Branch(0, [Leaf(1)])`, and `[0, 5]` asks the branch child of
      `Branch(0, [Branch(1, [Leaf(2)])])` for a child it does not have. */
  lemma DeeperPathErrors()
    ensures ReplacingTreeThrough(Branch(0, [Leaf(1)]), [0, 0], Leaf(9)) ==
              Err(TreeFailure(BranchOperationPerformedOnLeaf))
    ensures ReplacingTreeThrough(Branch(0, [Branch(1, [Leaf(2)])]), [0, 5], Leaf(9)) ==
              Err(TreeFailure(IllFormedIndexPath))
  {
    var p, q := [0, 0], [0, 5];
    assert p[1..] == [0] && q[1..] == [5];
    ReplacingTreeThroughErrors(Branch(0, [Leaf(1)]), p, Leaf(9));
    ReplacingTreeThroughErrors(Leaf(1), [0], Leaf(9));
    ReplacingTreeThroughErrors(Branch(0, [Branch(1, [Leaf(2)])]), q, Leaf(9));
    ReplacingTreeThroughErrors(Branch(1, [Leaf(2)]), [5], Leaf(9));
  }

  /** Moving to child 0 of a three-leaf branch focuses the first leaf and pushes a
      crumb with no left siblings and the other two on the right; index 3 is out of
      range. */
  lemma MoveToFirstChild()
    ensures Move(Init(Branch(-1, [Leaf(1), Leaf(2), Leaf(3)])), 0) ==
              Ok(Zipper(Leaf(1), [Crumb(-1, ([], [Leaf(2), Leaf(3)]))]))
    ensures Move(Init(Branch(-1, [Leaf(1), Leaf(2), Leaf(3)])), 3) == Err(IllFormedIndexPath)
    ensures Move(Init(Leaf(0)), 0) == Err(BranchOperationPerformedOnLeaf)
  {
    var cs := [Leaf(1), Leaf(2), Leaf(3)];
    assert cs[..0] == [] && cs[0 + 1..] == [Leaf(2), Leaf(3)];
    var crumbs: seq<Crumb<int>> := [];
    assert [Crumb(-1, (cs[..0], cs[0 + 1..]))] + crumbs == [Crumb(-1, ([], [Leaf(2), Leaf(3)]))];
  }

  /** The leaves of a three-child list are those of each child in turn. */
  lemma LeavesOfThree(x: Tree<int>, y: Tree<int>, z: Tree<int>)
    ensures LeavesOf([x, y, z]) == Leaves(x) + Leaves(y) + Leaves(z)
  {
    assert [x, y, z][1..] == [y, z];
    assert [y, z][1..] == [z];
    assert [z][1..] == [];
    assert LeavesOf([z]) == Leaves(z);
  }

  // A three-level nested tree with leaves 0 to 4 and 10 to 12, the branch to insert
  // into it, and the tree expected afterwards.
  function Inner(): Tree<int> { Branch(-1, [Branch(-1, [Leaf(3), Leaf(4)])]) }
  function Extra(): Tree<int> { FromSequence(-1, [5, 6, 7, 8, 9]) }
  function NestedRoot(inner: Tree<int>): Tree<int>
  {
    Branch(-1, [Leaf(0), Branch(-1, [Leaf(1), Branch(-1, [Leaf(2), inner, Leaf(10)]), Leaf(11)]), Leaf(12)])
  }
  function InnerAfter(): Tree<int> { Branch(-1, [Branch(-1, [Leaf(3), Leaf(4)]), Extra()]) }

  /** The leaves of the nested tree with `inner` in the middle: 0 to 2, the leaves
      of `inner`, then 10 to 12. */
  lemma NestedRootLeaves(inner: Tree<int>)
    ensures Leaves(NestedRoot(inner)) == [0, 1, 2] + Leaves(inner) + [10, 11, 12]
  {
    var b := Branch(-1, [Leaf(2), inner, Leaf(10)]);
    var a := Branch(-1, [Leaf(1), b, Leaf(11)]);
    LeavesShape(b);
    LeavesOfThree(Leaf(2), inner, Leaf(10));
    LeavesShape(a);
    LeavesOfThree(Leaf(1), b, Leaf(11));
    LeavesShape(NestedRoot(inner));
    LeavesOfThree(Leaf(0), a, Leaf(12));
  }

  /** Inserting through `[1, 1, 1]` at 1 adds the branch after the innermost
      node's only child. */
  lemma NestedInsertionTree()
    ensures Inserting(NestedRoot(Inner()), Extra(), [1, 1, 1], 1) == Ok(NestedRoot(InnerAfter()))
  {
    var root := NestedRoot(Inner());
    var path := [1, 1, 1];
    assert path[1..] == [1, 1] && path[1..][1..] == [1] && path[1..][1..][1..] == [];
    assert ValidPath(root, path);
    InsertingAgreesWhenHeadsMatchIndex(root, Extra(), path, 1);
    IntendedInsertingInsertsAtAddressedNode(root, Extra(), path, 1);
    assert Subtree(root, path) == Inner();
    assert WithChildInserted(Inner(), Extra(), 1) == InnerAfter();
    var b := Branch(-1, [Leaf(2), Inner(), Leaf(10)]);
    var b' := Branch(-1, [Leaf(2), InnerAfter(), Leaf(10)]);
    var a := Branch(-1, [Leaf(1), b, Leaf(11)]);
    var a' := Branch(-1, [Leaf(1), b', Leaf(11)]);
    assert PutAt(Inner(), [], InnerAfter()) == InnerAfter();
    assert [Leaf(2), Inner(), Leaf(10)][1 := InnerAfter()] == [Leaf(2), InnerAfter(), Leaf(10)];
    assert PutAt(b, [1], InnerAfter()) == b';
    assert [Leaf(1), b, Leaf(11)][1 := b'] == [Leaf(1), b', Leaf(11)];
    assert PutAt(a, [1, 1], InnerAfter()) == a';
    assert [Leaf(0), a, Leaf(12)][1 := a'] == [Leaf(0), a', Leaf(12)];
  }

  /** The leaves of a two-child list are those of each child in turn. */
  lemma LeavesOfTwo(x: Tree<int>, y: Tree<int>)
    ensures LeavesOf([x, y]) == Leaves(x) + Leaves(y)
  {
    assert [x, y][1..] == [y];
    assert [y][1..] == [];
    assert LeavesOf([y]) == Leaves(y);
  }

  lemma PairLeaves()
    ensures Leaves(Branch(-1, [Leaf(3), Leaf(4)])) == [3, 4]
  {
    LeavesShape(Branch(-1, [Leaf(3), Leaf(4)]));
    LeavesOfTwo(Leaf(3), Leaf(4));
    LeavesShape(Leaf(3));
    LeavesShape(Leaf(4));
  }

  /** The innermost node has leaves 3 and 4 before the insertion and 3 to 9
      after it. */
  lemma InnerLeaves()
    ensures Leaves(Inner()) == [3, 4]
    ensures Leaves(InnerAfter()) == [3, 4, 5, 6, 7, 8, 9]
  {
    var pair := Branch(-1, [Leaf(3), Leaf(4)]);
    assert [3, 4] + [5, 6, 7, 8, 9] == [3, 4, 5, 6, 7, 8, 9];
    PairLeaves();
    LeavesShape(Inner());
    LeavesOfSingleton(pair);
    LeavesShape(InnerAfter());
    LeavesOfTwo(pair, Extra());
    LeavesOfFromSequence(-1, [5, 6, 7, 8, 9]);
  }

  /** Inserting a five-leaf branch three levels down, at a position equal to every
      index on the path, puts its leaves in the middle: leaves 0 to 12 in order. */
  lemma NestedInsertion()
    ensures Leaves(NestedRoot(Inner())) == [0, 1, 2, 3, 4, 10, 11, 12]
    ensures Inserting(NestedRoot(Inner()), Extra(), [1, 1, 1], 1).Ok?
    ensures Leaves(Inserting(NestedRoot(Inner()), Extra(), [1, 1, 1], 1).value) ==
              [0, 1, 2, 3, 4, 5, 6, 7, 8, 9, 10, 11, 12]
  {
    assert [0, 1, 2] + [3, 4, 5, 6, 7, 8, 9] == [0, 1, 2, 3, 4, 5, 6, 7, 8, 9];
    assert [0, 1, 2, 3, 4, 5, 6, 7, 8, 9] + [10, 11, 12] == [0, 1, 2, 3, 4, 5, 6, 7, 8, 9, 10, 11, 12];
    assert [0, 1, 2] + [3, 4] + [10, 11, 12] == [0, 1, 2, 3, 4, 10, 11, 12];
    NestedInsertionTree();
    NestedRootLeaves(Inner());
    NestedRootLeaves(InnerAfter());
    InnerLeaves();
  }

  function Double(x: int): int { x * 2 }

  /** Moving to the middle of the middle branch, doubling that payload and going to
      the top rebuilds the tree with just that leaf changed. */
  lemma DoubleNestedEdit()
    ensures
      var t := Branch(-1, [Leaf(1), Branch(-1, [Leaf(2), Leaf(3), Leaf(4)]), Leaf(5)]);
      Moves(Init(t), [1, 1]).Ok? &&
      Top(Update(Moves(Init(t), [1, 1]).value, Double)).tree
        == Branch(-1, [Leaf(1), Branch(-1, [Leaf(2), Leaf(6), Leaf(4)]), Leaf(5)])
  {
    var mid := Branch(-1, [Leaf(2), Leaf(3), Leaf(4)]);
    var t := Branch(-1, [Leaf(1), mid, Leaf(5)]);
    var path := [1, 1];
    var f := Double;
    assert path[1..] == [1] && path[1..][1..] == [];
    assert ValidPath(t, path);
    ZipperEditIsLocal(t, path, f);
    assert Subtree(t, path) == Leaf(3);
    var mid' := Branch(-1, [Leaf(2), Leaf(6), Leaf(4)]);
    assert PutAt(Leaf(3), [], Leaf(6)) == Leaf(6);
    assert [Leaf(2), Leaf(3), Leaf(4)][1 := Leaf(6)] == [Leaf(2), Leaf(6), Leaf(4)];
    assert PutAt(mid, [1], Leaf(6)) == mid';
    assert [Leaf(1), mid, Leaf(5)][1 := mid'] == [Leaf(1), mid', Leaf(5)];
  }

  /** The same edit seen through the leaves: `[1, 2, 6, 4, 5]`. */
  lemma DoubleNestedLeaf()
    ensures
      var t := Branch(-1, [Leaf(1), Branch(-1, [Leaf(2), Leaf(3), Leaf(4)]), Leaf(5)]);
      Moves(Init(t), [1, 1]).Ok? &&
      Leaves(Top(Update(Moves(Init(t), [1, 1]).value, Double)).tree) == [1, 2, 6, 4, 5]
  {
    assert [2] + [6] + [4] == [2, 6, 4];
    assert [1] + [2, 6, 4] + [5] == [1, 2, 6, 4, 5];
    var mid' := Branch(-1, [Leaf(2), Leaf(6), Leaf(4)]);
    var t' := Branch(-1, [Leaf(1), mid', Leaf(5)]);
    LeavesShape(mid');
    LeavesOfThree(Leaf(2), Leaf(6), Leaf(4));
    LeavesShape(t');
    LeavesOfThree(Leaf(1), mid', Leaf(5));
    assert Leaves(t') == [1, 2, 6, 4, 5];
    DoubleNestedEdit();
  }
}
