/** The persistent n-ary tree (Collections/Tree.swift). Every edit returns a new
    tree; failures are the `TreeError`s the source throws, plus the array helper's
    `ArrayError` that `replacingTree(at:with:)` lets through. */
module Trees {
  import opened Wrappers
  import opened Split
  import opened ListProcessing
  import opened ReplaceElements

  /** Things that can go wrong when doing things to a tree. */
  datatype TreeError = IndexOutOfBounds | BranchOperationPerformedOnLeaf | IllFormedIndexPath

  /** Anything a tree operation can throw. */
  datatype Failure = TreeFailure(treeError: TreeError) | ArrayFailure(arrayError: ArrayError)

  /** A leaf holds a payload; a branch holds a payload and an ordered list of
      subtrees. Both variants expose their payload as `value`. */
  datatype Tree<T> = Leaf(value: T) | Branch(value: T, children: seq<Tree<T>>)

  // ---------------------------------------------------------------------------
  // Leaves

  /** The source's accumulator walk: a leaf appends its payload, a branch folds its
      children left to right. */
  function Flattened<T>(accum: seq<T>, tree: Tree<T>): seq<T>
    decreases tree, 1
  {
    match tree
    case Branch(_, trees) => FlattenedAll(accum, trees)
    case Leaf(v) => accum + [v]
  }

  /** `trees.reduce(accum, flattened)`. */
  function FlattenedAll<T>(accum: seq<T>, trees: seq<Tree<T>>): seq<T>
    decreases trees, 0
  {
    if |trees| == 0 then accum else FlattenedAll(Flattened(accum, trees[0]), trees[1..])
  }

  /** `leaves`: the payloads of all leaves, left to right. */
  function Leaves<T>(tree: Tree<T>): seq<T>
  {
    Flattened([], tree)
  }

  /** The concatenation of the leaves of each tree in `trees`, in order. */
  ghost function LeavesOf<T>(trees: seq<Tree<T>>): seq<T>
    decreases trees
  {
    if |trees| == 0 then [] else Leaves(trees[0]) + LeavesOf(trees[1..])
  }

  lemma {:induction false} FlattenedAppends<T>(accum: seq<T>, tree: Tree<T>)
    ensures Flattened(accum, tree) == accum + Leaves(tree)
    decreases tree, 1
  {
    match tree
    case Leaf(v) =>
    case Branch(_, trees) =>
      FlattenedAllAppends(accum, trees);
      FlattenedAllAppends([], trees);
  }

  lemma {:induction false} FlattenedAllAppends<T>(accum: seq<T>, trees: seq<Tree<T>>)
    ensures FlattenedAll(accum, trees) == accum + LeavesOf(trees)
    decreases trees, 0
  {
    if |trees| > 0 {
      FlattenedAppends(accum, trees[0]);
      FlattenedAllAppends(Flattened(accum, trees[0]), trees[1..]);
    }
  }

  /** The leaves of a leaf are its payload alone; those of a branch are its
      children's leaves in order, the branch payload taking no part. */
  lemma LeavesShape<T>(tree: Tree<T>)
    ensures tree.Leaf? ==> Leaves(tree) == [tree.value]
    ensures tree.Branch? ==> Leaves(tree) == LeavesOf(tree.children)
  {
    if tree.Branch? {
      FlattenedAllAppends([], tree.children);
    }
  }

  /** A branch without children has no leaves. */
  lemma LeavesOfChildlessBranch<T>(v: T)
    ensures Leaves(Branch(v, [])) == []
  {
    LeavesShape(Branch(v, []));
  }

  lemma {:induction false} LeavesOfConcat<T>(a: seq<Tree<T>>, b: seq<Tree<T>>)
    ensures LeavesOf(a + b) == LeavesOf(a) + LeavesOf(b)
    decreases |a|
  {
    if |a| > 0 {
      assert (a + b)[0] == a[0];
      assert (a + b)[1..] == a[1..] + b;
      LeavesOfConcat(a[1..], b);
    } else {
      assert a + b == b;
    }
  }

  lemma LeavesOfSingleton<T>(t: Tree<T>)
    ensures LeavesOf([t]) == Leaves(t)
  {
  }

  /** The leaves of the children around position `i`: left part, child `i`, right
      part. */
  lemma LeavesOfAround<T>(trees: seq<Tree<T>>, i: int)
    requires 0 <= i < |trees|
    ensures LeavesOf(trees) == LeavesOf(trees[..i]) + Leaves(trees[i]) + LeavesOf(trees[i + 1..])
  {
    var left, rest := trees[..i], trees[i..];
    assert trees == left + rest;
    LeavesOfConcat(left, rest);
    assert rest[0] == trees[i] && rest[1..] == trees[i + 1..];
  }

  // ---------------------------------------------------------------------------
  // Construction and payload updates

  /** `init(_:_:)`: a branch whose children are leaves holding the elements. */
  function FromSequence<T>(v: T, elements: seq<T>): (r: Tree<T>)
    ensures r.Branch? && r.value == v && |r.children| == |elements|
    ensures forall i :: 0 <= i < |elements| ==> r.children[i] == Leaf(elements[i])
  {
    Branch(v, seq(|elements|, i requires 0 <= i < |elements| => Leaf(elements[i])))
  }

  lemma {:induction false} LeavesOfLeafList<T>(elements: seq<T>)
    ensures LeavesOf(seq(|elements|, i requires 0 <= i < |elements| => Leaf(elements[i]))) == elements
    decreases |elements|
  {
    var trees := seq(|elements|, i requires 0 <= i < |elements| => Leaf(elements[i]));
    if |elements| > 0 {
      var rest := seq(|elements[1..]|, i requires 0 <= i < |elements[1..]| => Leaf(elements[1..][i]));
      assert trees[1..] == rest;
      LeavesOfLeafList(elements[1..]);
      assert elements == [elements[0]] + elements[1..];
    }
  }

  /** The leaves of `init(v, elements)` are exactly `elements`. */
  lemma LeavesOfFromSequence<T>(v: T, elements: seq<T>)
    ensures Leaves(FromSequence(v, elements)) == elements
  {
    LeavesShape(FromSequence(v, elements));
    LeavesOfLeafList(elements);
  }

  /** `updating(value:)`: the same variant and children with a new payload. */
  function Updating<T>(tree: Tree<T>, v: T): (r: Tree<T>)
    ensures r.value == v && r.Leaf? == tree.Leaf?
    ensures r.Branch? ==> r.children == tree.children
  {
    match tree
    case Leaf(_) => Leaf(v)
    case Branch(_, trees) => Branch(v, trees)
  }

  /** Updating the payload of a branch leaves its leaves as they were. */
  lemma UpdatingBranchKeepsLeaves<T>(tree: Tree<T>, v: T)
    requires tree.Branch?
    ensures Leaves(Updating(tree, v)) == Leaves(tree)
  {
    LeavesShape(tree);
    LeavesShape(Updating(tree, v));
  }

  // ---------------------------------------------------------------------------
  // Editing children

  /** `trees[safe: index]`: the element at `index` if it exists. */
  function SafeIndex<T>(s: seq<T>, index: int): (r: Option<T>)
    ensures r.Some? <==> 0 <= index < |s|
    ensures r.Some? ==> r.value == s[index]
  {
    if 0 <= index < |s| then Some(s[index]) else None
  }

  /** `replacingTree(at:with:)`: fails on a leaf; on a branch, replaces child
      `index` through the array helper, whose `RemovalError` surfaces when `index`
      is out of range. */
  function ReplacingTreeAt<T>(tree: Tree<T>, index: int, newTree: Tree<T>): (r: Result<Tree<T>, Failure>)
    ensures tree.Leaf? ==> r == Err(TreeFailure(BranchOperationPerformedOnLeaf))
    ensures tree.Branch? && !(0 <= index < |tree.children|) ==> r == Err(ArrayFailure(RemovalError))
    ensures tree.Branch? && 0 <= index < |tree.children| ==>
              r == Ok(Branch(tree.value, tree.children[index := newTree]))
  {
    match tree
    case Leaf(_) => Err(TreeFailure(BranchOperationPerformedOnLeaf))
    case Branch(v, trees) =>
      match WithElementReplaced(trees, index, newTree)
      case Ok(replaced) =>
        assert replaced == trees[index := newTree];
        Ok(Branch(v, replaced))
      case Err(e) => Err(ArrayFailure(e))
  }

  /** Replacing child `index` changes exactly that child's share of the leaves. */
  lemma LeavesAfterReplacingTreeAt<T>(tree: Tree<T>, index: int, newTree: Tree<T>)
    requires tree.Branch? && 0 <= index < |tree.children|
    ensures ReplacingTreeAt(tree, index, newTree).Ok?
    ensures Leaves(ReplacingTreeAt(tree, index, newTree).value) ==
              LeavesOf(tree.children[..index]) + Leaves(newTree) + LeavesOf(tree.children[index + 1..])
  {
    var cs := tree.children;
    var r := ReplacingTreeAt(tree, index, newTree).value;
    LeavesShape(r);
    LeavesOfAround(cs[index := newTree], index);
    assert cs[index := newTree][..index] == cs[..index];
    assert cs[index := newTree][index + 1..] == cs[index + 1..];
  }

  /** The recursive walk of `replacingTree(through:with:)`. */
  function ReplaceTraverse<T>(tree: Tree<T>, newTree: Tree<T>, path: seq<int>): Result<Tree<T>, Failure>
    decreases |path|
  {
    match tree
    case Leaf(_) => Err(TreeFailure(BranchOperationPerformedOnLeaf))
    case Branch(v, trees) =>
      match Destructured(path)
      case None => Err(TreeFailure(IllFormedIndexPath))
      case Some((index, remainingPath)) =>
        match SafeIndex(trees, index)
        case None => Err(TreeFailure(IllFormedIndexPath))
        case Some(subTree) =>
          if |path| <= 1 then
            match WithElementReplaced(trees, index, newTree)
            case Ok(replaced) => Ok(Branch(v, replaced))
            case Err(e) => Err(ArrayFailure(e))
          else
            match ReplaceTraverse(subTree, newTree, remainingPath)
            case Err(e) => Err(e)
            case Ok(replacement) => ReplacingTreeAt(tree, index, replacement)
  }

  /** `replacingTree(through:with:)`. */
  function ReplacingTreeThrough<T>(tree: Tree<T>, path: seq<int>, newTree: Tree<T>): Result<Tree<T>, Failure>
  {
    ReplaceTraverse(tree, newTree, path)
  }

  // ---------------------------------------------------------------------------
  // Index paths: the reference definitions the path operations are proved against

  /** A path addresses a node when every index on it picks an existing child of a
      branch; the empty path addresses the tree itself. */
  ghost predicate ValidPath<T>(tree: Tree<T>, path: seq<int>)
    decreases |path|
  {
    |path| == 0 ||
    (tree.Branch? && 0 <= path[0] < |tree.children| && ValidPath(tree.children[path[0]], path[1..]))
  }

  /** The node a valid path addresses. */
  ghost function Subtree<T>(tree: Tree<T>, path: seq<int>): Tree<T>
    requires ValidPath(tree, path)
    decreases |path|
  {
    if |path| == 0 then tree else Subtree(tree.children[path[0]], path[1..])
  }

  /** The tree with the node a valid path addresses replaced by `node`; every other
      node is kept. */
  ghost function PutAt<T>(tree: Tree<T>, path: seq<int>, node: Tree<T>): Tree<T>
    requires ValidPath(tree, path)
    decreases |path|
  {
    if |path| == 0 then node
    else Branch(tree.value, tree.children[path[0] := PutAt(tree.children[path[0]], path[1..], node)])
  }

  /** `replacingTree(through:with:)` succeeds exactly for a non-empty path that
      addresses a node, and then replaces that node and nothing else. */
  lemma {:induction false} ReplacingTreeThroughReplacesAddressedNode<T>(tree: Tree<T>, path: seq<int>, newTree: Tree<T>)
    ensures ReplacingTreeThrough(tree, path, newTree).Ok? <==> |path| > 0 && ValidPath(tree, path)
    ensures ReplacingTreeThrough(tree, path, newTree).Ok? ==>
              ReplacingTreeThrough(tree, path, newTree).value == PutAt(tree, path, newTree)
    decreases |path|
  {
    if tree.Branch? && |path| > 1 && 0 <= path[0] < |tree.children| {
      ReplacingTreeThroughReplacesAddressedNode(tree.children[path[0]], path[1..], newTree);
    }
  }

  /** The errors of `replacingTree(through:with:)` are tree errors: a leaf root
      refuses any path, and a branch root refuses an empty path or a first index
      that is out of range as ill-formed. Deeper down, a longer path through a
      child fails exactly when the rest of the path fails in that child, with the
      same error, so a leaf entered at any depth is reported as a branch operation
      on a leaf and an out-of-range index at any depth as an ill-formed path. */
  lemma {:induction false} ReplacingTreeThroughErrors<T>(tree: Tree<T>, path: seq<int>, newTree: Tree<T>)
    ensures ReplacingTreeThrough(tree, path, newTree).Err? ==>
              ReplacingTreeThrough(tree, path, newTree).error.TreeFailure?
    ensures tree.Leaf? ==> ReplacingTreeThrough(tree, path, newTree) == Err(TreeFailure(BranchOperationPerformedOnLeaf))
    ensures tree.Branch? && (|path| == 0 || !(0 <= path[0] < |tree.children|)) ==>
              ReplacingTreeThrough(tree, path, newTree) == Err(TreeFailure(IllFormedIndexPath))
    ensures tree.Branch? && |path| > 1 && 0 <= path[0] < |tree.children| ==>
              (ReplacingTreeThrough(tree, path, newTree).Err? <==>
               ReplacingTreeThrough(tree.children[path[0]], path[1..], newTree).Err?)
    ensures tree.Branch? && |path| > 1 && 0 <= path[0] < |tree.children|
              && ReplacingTreeThrough(tree, path, newTree).Err? ==>
              ReplacingTreeThrough(tree, path, newTree).error
                == ReplacingTreeThrough(tree.children[path[0]], path[1..], newTree).error
    decreases |path|
  {
    if tree.Branch? && |path| > 1 && 0 <= path[0] < |tree.children| {
      ReplacingTreeThroughErrors(tree.children[path[0]], path[1..], newTree);
    }
  }

  /** A one-index path succeeds exactly when `replacingTree(at:with:)` does, with the
      same tree; an index out of range is reported as an ill-formed path instead of
      the array helper's error. */
  lemma ReplacingTreeThroughSingleIndex<T>(tree: Tree<T>, index: int, newTree: Tree<T>)
    ensures ReplacingTreeThrough(tree, [index], newTree).Ok? <==> ReplacingTreeAt(tree, index, newTree).Ok?
    ensures ReplacingTreeAt(tree, index, newTree).Ok? ==>
              ReplacingTreeThrough(tree, [index], newTree) == ReplacingTreeAt(tree, index, newTree)
    ensures tree.Branch? && !(0 <= index < |tree.children|) ==>
              ReplacingTreeThrough(tree, [index], newTree) == Err(TreeFailure(IllFormedIndexPath))
  {
    assert Destructured([index]) == Some((index, []));
  }

  // ---------------------------------------------------------------------------
  // Insertion

  /** The private `insert(_:into:at:)`: splice `element` in at `index`, or fail with
      an ill-formed path when `index` is not in `[0, |elements|]`. */
  function Insert<A>(element: A, elements: seq<A>, index: int): (r: Result<seq<A>, Failure>)
    ensures r.Err? <==> index < 0 || index > |elements|
    ensures r.Err? ==> r.error == TreeFailure(IllFormedIndexPath)
    ensures r.Ok? ==> r.value == elements[..index] + [element] + elements[index..]
  {
    match SplitAt(elements, index)
    case None => Err(TreeFailure(IllFormedIndexPath))
    case Some((left, right)) => Ok(left + [element] + right)
  }

  /** The recursive walk of `inserting(_:through:at:)` AS WRITTEN: after inserting
      below child `head`, the rebuilt child is put back at position `index`. */
  function InsertTraverse<T>(tree: Tree<T>, newTree: Tree<T>, path: seq<int>, index: int): Result<Tree<T>, Failure>
    decreases |path|
  {
    match tree
    case Leaf(_) => Err(TreeFailure(BranchOperationPerformedOnLeaf))
    case Branch(v, trees) =>
      match Destructured(path)
      case None =>
        (match Insert(newTree, trees, index)
         case Ok(inserted) => Ok(Branch(v, inserted))
         case Err(e) => Err(e))
      case Some((head, tail)) =>
        match SafeIndex(trees, head)
        case None => Err(TreeFailure(IllFormedIndexPath))
        case Some(subTree) =>
          match InsertTraverse(subTree, newTree, tail, index)
          case Err(e) => Err(e)
          case Ok(newBranch) => ReplacingTreeAt(tree, index, newBranch)
  }

  /** `inserting(_:through:at:)` as written. */
  function Inserting<T>(tree: Tree<T>, newTree: Tree<T>, path: seq<int>, index: int): Result<Tree<T>, Failure>
  {
    InsertTraverse(tree, newTree, path, index)
  }

  /** With an empty path the new tree goes in among the root's children at `index`:
      a leaf refuses, an index outside `[0, count]` is ill-formed, `index == count`
      appends, and the child count grows by one. */
  lemma InsertingAtRoot<T>(tree: Tree<T>, newTree: Tree<T>, index: int)
    ensures tree.Leaf? ==> Inserting(tree, newTree, [], index) == Err(TreeFailure(BranchOperationPerformedOnLeaf))
    ensures tree.Branch? && (index < 0 || index > |tree.children|) ==>
              Inserting(tree, newTree, [], index) == Err(TreeFailure(IllFormedIndexPath))
    ensures tree.Branch? && 0 <= index <= |tree.children| ==>
              Inserting(tree, newTree, [], index) ==
              Ok(Branch(tree.value, tree.children[..index] + [newTree] + tree.children[index..]))
    ensures tree.Branch? && index == |tree.children| ==>
              Inserting(tree, newTree, [], index) == Ok(Branch(tree.value, tree.children + [newTree]))
  {
    var noPath: seq<int> := [];
    assert Destructured(noPath) == None;
    if tree.Branch? && index == |tree.children| {
      assert tree.children[..index] + [newTree] + tree.children[index..] == tree.children + [newTree];
    }
  }

  /** Inserting at the root keeps the leaves in order: the new tree's leaves land
      between those of the children before and after `index`. */
  lemma LeavesAfterInsertingAtRoot<T>(tree: Tree<T>, newTree: Tree<T>, index: int)
    requires tree.Branch? && 0 <= index <= |tree.children|
    ensures Inserting(tree, newTree, [], index).Ok?
    ensures Leaves(Inserting(tree, newTree, [], index).value) ==
              LeavesOf(tree.children[..index]) + Leaves(newTree) + LeavesOf(tree.children[index..])
    ensures |Leaves(Inserting(tree, newTree, [], index).value)| == |Leaves(tree)| + |Leaves(newTree)|
  {
    InsertingAtRoot(tree, newTree, index);
    var cs := tree.children;
    var r := Inserting(tree, newTree, [], index).value;
    LeavesShape(r);
    LeavesShape(tree);
    LeavesOfConcat(cs[..index] + [newTree], cs[index..]);
    LeavesOfConcat(cs[..index], [newTree]);
    assert cs == cs[..index] + cs[index..];
    LeavesOfConcat(cs[..index], cs[index..]);
  }

  /** With a non-empty path, a first index out of range is ill-formed; otherwise the
      walk continues in child `head` and its result replaces child `index` of the
      root, as `replacingTree(at:with:)` does. */
  lemma InsertingThroughPath<T>(tree: Tree<T>, newTree: Tree<T>, path: seq<int>, index: int)
    requires tree.Branch? && |path| > 0
    ensures !(0 <= path[0] < |tree.children|) ==> Inserting(tree, newTree, path, index) == Err(TreeFailure(IllFormedIndexPath))
    ensures 0 <= path[0] < |tree.children| ==>
              Inserting(tree, newTree, path, index) ==
              match Inserting(tree.children[path[0]], newTree, path[1..], index)
              case Err(e) => Err(e)
              case Ok(newBranch) => ReplacingTreeAt(tree, index, newBranch)
  {
    assert Destructured(path) == Some((path[0], path[1..]));
  }

  // ---------------------------------------------------------------------------
  // Insertion as evidently intended: the rebuilt child goes back where it came from

  /** The insertion the documentation describes: the new tree becomes child `index`
      of the node addressed by `path`. */
  function InsertTraverseIntended<T>(tree: Tree<T>, newTree: Tree<T>, path: seq<int>, index: int): Result<Tree<T>, Failure>
    decreases |path|
  {
    match tree
    case Leaf(_) => Err(TreeFailure(BranchOperationPerformedOnLeaf))
    case Branch(v, trees) =>
      match Destructured(path)
      case None =>
        (match Insert(newTree, trees, index)
         case Ok(inserted) => Ok(Branch(v, inserted))
         case Err(e) => Err(e))
      case Some((head, tail)) =>
        match SafeIndex(trees, head)
        case None => Err(TreeFailure(IllFormedIndexPath))
        case Some(subTree) =>
          match InsertTraverseIntended(subTree, newTree, tail, index)
          case Err(e) => Err(e)
          case Ok(newBranch) => ReplacingTreeAt(tree, head, newBranch)
  }

  /** The node with `newTree` spliced in among its children at `index`. */
  ghost function WithChildInserted<T>(node: Tree<T>, newTree: Tree<T>, index: int): Tree<T>
    requires node.Branch? && 0 <= index <= |node.children|
  {
    Branch(node.value, node.children[..index] + [newTree] + node.children[index..])
  }

  /** The intended insertion succeeds exactly when the path addresses a branch and
      `index` is a position among its children, and then changes that node alone. */
  lemma {:induction false} IntendedInsertingInsertsAtAddressedNode<T>(tree: Tree<T>, newTree: Tree<T>, path: seq<int>, index: int)
    ensures InsertTraverseIntended(tree, newTree, path, index).Ok? <==>
              ValidPath(tree, path) && Subtree(tree, path).Branch? &&
              0 <= index <= |Subtree(tree, path).children|
    ensures InsertTraverseIntended(tree, newTree, path, index).Ok? ==>
              InsertTraverseIntended(tree, newTree, path, index).value ==
              PutAt(tree, path, WithChildInserted(Subtree(tree, path), newTree, index))
    decreases |path|
  {
    if tree.Branch? && |path| > 0 {
      assert Destructured(path) == Some((path[0], path[1..]));
      if 0 <= path[0] < |tree.children| {
        IntendedInsertingInsertsAtAddressedNode(tree.children[path[0]], newTree, path[1..], index);
      }
    }
  }

  /** When every index on the path equals `index`, the code as written and the
      intended insertion agree. */
  lemma {:induction false} InsertingAgreesWhenHeadsMatchIndex<T>(tree: Tree<T>, newTree: Tree<T>, path: seq<int>, index: int)
    requires forall k :: 0 <= k < |path| ==> path[k] == index
    ensures Inserting(tree, newTree, path, index) == InsertTraverseIntended(tree, newTree, path, index)
    decreases |path|
  {
    if tree.Branch? && |path| > 0 {
      assert Destructured(path) == Some((path[0], path[1..]));
      if 0 <= path[0] < |tree.children| {
        InsertingAgreesWhenHeadsMatchIndex(tree.children[path[0]], newTree, path[1..], index);
      }
    }
  }

  /** A concrete input on which the code as written differs from the intended
      insertion: inserting below child 0 at position 1 overwrites child 1 of the
      root with a copy of the edited child 0. */
  lemma InsertingReattachesAtWrongChild()
    ensures Inserting(Branch(0, [Branch(1, [Leaf(3)]), Leaf(2)]), Leaf(9), [0], 1) ==
              Ok(Branch(0, [Branch(1, [Leaf(3)]), Branch(1, [Leaf(3), Leaf(9)])]))
    ensures InsertTraverseIntended(Branch(0, [Branch(1, [Leaf(3)]), Leaf(2)]), Leaf(9), [0], 1) ==
              Ok(Branch(0, [Branch(1, [Leaf(3), Leaf(9)]), Leaf(2)]))
  {
    var t := Branch(0, [Branch(1, [Leaf(3)]), Leaf(2)]);
    assert Destructured([0]) == Some((0, []));
    var noPath: seq<int> := [];
    assert Destructured(noPath) == None;
    var child := Branch(1, [Leaf(3), Leaf(9)]);
    assert [Leaf(3)][..1] + [Leaf(9)] + [Leaf(3)][1..] == [Leaf(3), Leaf(9)];
    assert Insert(Leaf(9), [Leaf(3)], 1) == Ok([Leaf(3), Leaf(9)]);
    assert Inserting(Branch(1, [Leaf(3)]), Leaf(9), [], 1) == Ok(child);
    assert [Branch(1, [Leaf(3)]), Leaf(2)][1 := child] == [Branch(1, [Leaf(3)]), child];
    assert [Branch(1, [Leaf(3)]), Leaf(2)][0 := child] == [child, Leaf(2)];
  }

  // ---------------------------------------------------------------------------
  // Structural equality

  /** `==` on trees: same variant, equal payloads and, for branches, equal child
      lists. It is structural equality. */
  method TreeEquals<T(==)>(lhs: Tree<T>, rhs: Tree<T>) returns (b: bool)
    ensures b <==> lhs == rhs
    decreases lhs, 1
  {
    match (lhs, rhs)
    case (Leaf(x), Leaf(y)) =>
      b := x == y;
    case (Branch(valueA, treesA), Branch(valueB, treesB)) =>
      if valueA != valueB {
        b := false;
      } else {
        b := TreesEqual(treesA, treesB);
      }
    case _ =>
      b := false;
  }

  /** `==` on arrays of trees: equal counts, then the pairs compared in order
      until one differs. */
  method TreesEqual<T(==)>(lhs: seq<Tree<T>>, rhs: seq<Tree<T>>) returns (b: bool)
    ensures b <==> lhs == rhs
    decreases lhs, 0
  {
    if |lhs| != |rhs| {
      return false;
    }
    var i := 0;
    while i < |lhs|
      invariant 0 <= i <= |lhs|
      invariant forall j :: 0 <= j < i ==> lhs[j] == rhs[j]
    {
      var same := TreeEquals(lhs[i], rhs[i]);
      if !same {
        return false;
      }
      i := i + 1;
    }
    return true;
  }
}
