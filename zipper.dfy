/** The zipper over an immutable tree (Collections/Zipper.swift): a focused subtree
    plus a stack of crumbs, the most recent first. Every operation returns a new
    zipper. */
module Zippers {
  import opened Wrappers
  import opened Split
  import opened ListProcessing
  import opened Trees

  /** One level of ascent context: the parent's payload and the siblings left and
      right of the focused child. */
  datatype Crumb<T> = Crumb(value: T, trees: (seq<Tree<T>>, seq<Tree<T>>))

  datatype Zipper<T> = Zipper(tree: Tree<T>, breadcrumbs: seq<Crumb<T>>)

  /** `init(_:)` with the default, empty breadcrumbs. */
  function Init<T>(tree: Tree<T>): (z: Zipper<T>)
    ensures z.tree == tree && z.breadcrumbs == []
  {
    Zipper(tree, [])
  }

  /** `up`: unchanged at the root; otherwise the most recent crumb is popped and
      its parent rebuilt around the focus. */
  function Up<T>(z: Zipper<T>): (r: Zipper<T>)
    ensures |z.breadcrumbs| == 0 ==> r == z
    ensures |z.breadcrumbs| > 0 ==> |r.breadcrumbs| == |z.breadcrumbs| - 1 && r.tree.Branch?
  {
    match Destructured(z.breadcrumbs)
    case None => z
    case Some((latest, remaining)) =>
      var (left, right) := latest.trees;
      Zipper(Branch(latest.value, Append(left, z.tree) + right), remaining)
  }

  /** `top`: `up` until no crumb is left; it always ends at the root. */
  function Top<T>(z: Zipper<T>): (r: Zipper<T>)
    ensures r.breadcrumbs == []
    decreases |z.breadcrumbs|
  {
    if |z.breadcrumbs| == 0 then z else Top(Up(z))
  }

  /** `move(to:)`: a leaf has no child to move to; an index outside the children is
      ill-formed; otherwise the focus becomes child `index` and one crumb, holding
      the parent payload and the siblings on either side, is pushed. */
  function Move<T>(z: Zipper<T>, index: int): (r: Result<Zipper<T>, TreeError>)
    ensures z.tree.Leaf? ==> r == Err(BranchOperationPerformedOnLeaf)
    ensures z.tree.Branch? && !(0 <= index < |z.tree.children|) ==> r == Err(IllFormedIndexPath)
    ensures z.tree.Branch? && 0 <= index < |z.tree.children| ==>
              r.Ok? && r.value.tree == z.tree.children[index] &&
              r.value.breadcrumbs ==
                [Crumb(z.tree.value, (z.tree.children[..index], z.tree.children[index + 1..]))] + z.breadcrumbs
  {
    match z.tree
    case Leaf(_) => Err(BranchOperationPerformedOnLeaf)
    case Branch(v, trees) =>
      match SplitAndExtractElement(trees, index)
      case None => Err(IllFormedIndexPath)
      case Some((left, subTree, right)) =>
        Ok(Zipper(subTree, Prepend(Crumb(v, (left, right)), z.breadcrumbs)))
  }

  /** `update(_:)`: the focus gets payload `f(value)`, keeping its variant and
      children; the breadcrumbs are untouched. */
  function Update<T>(z: Zipper<T>, f: T -> T): (r: Zipper<T>)
    ensures r.breadcrumbs == z.breadcrumbs
    ensures r.tree == Updating(z.tree, f(z.tree.value))
  {
    match z.tree
    case Leaf(v) => Zipper(Leaf(f(v)), z.breadcrumbs)
    case Branch(v, trees) => Zipper(Branch(f(v), trees), z.breadcrumbs)
  }

  /** `update(value:)`: `update` with a constant function. */
  function UpdateValue<T>(z: Zipper<T>, v: T): (r: Zipper<T>)
    ensures r == Zipper(Updating(z.tree, v), z.breadcrumbs)
  {
    Update(z, _ => v)
  }

  // ---------------------------------------------------------------------------
  // Reconstruction

  /** The tree the crumbs rebuild around `focus`, innermost crumb first. */
  ghost function Plug<T>(crumbs: seq<Crumb<T>>, focus: Tree<T>): Tree<T>
    decreases |crumbs|
  {
    if |crumbs| == 0 then focus
    else Plug(crumbs[1..], Branch(crumbs[0].value, crumbs[0].trees.0 + [focus] + crumbs[0].trees.1))
  }

  /** Going up rebuilds the parent and keeps what the crumbs reconstruct. */
  lemma UpKeepsReconstruction<T>(z: Zipper<T>)
    ensures Plug(Up(z).breadcrumbs, Up(z).tree) == Plug(z.breadcrumbs, z.tree)
  {
  }

  /** `top` yields, with no crumbs left, the tree the crumbs rebuild around the
      focus. */
  lemma {:induction false} TopRebuilds<T>(z: Zipper<T>)
    ensures Top(z) == Zipper(Plug(z.breadcrumbs, z.tree), [])
    decreases |z.breadcrumbs|
  {
    if |z.breadcrumbs| > 0 {
      UpKeepsReconstruction(z);
      TopRebuilds(Up(z));
    }
  }

  /** On a fresh zipper `top` changes nothing. */
  lemma TopOfFreshZipper<T>(tree: Tree<T>)
    ensures Top(Init(tree)) == Init(tree)
  {
  }

  /** `move(to:)` followed by `up` gives back the zipper moved from. */
  lemma MoveThenUp<T>(z: Zipper<T>, index: int)
    requires Move(z, index).Ok?
    ensures Up(Move(z, index).value) == z
  {
    var cs := z.tree.children;
    assert cs[..index] + [cs[index]] + cs[index + 1..] == cs;
    var m := Move(z, index).value;
    assert Destructured(m.breadcrumbs) == Some((m.breadcrumbs[0], z.breadcrumbs));
  }

  /** Moving down does not change the tree `top` rebuilds. */
  lemma TopAfterMove<T>(z: Zipper<T>, index: int)
    requires Move(z, index).Ok?
    ensures Top(Move(z, index).value) == Top(z)
  {
    MoveThenUp(z, index);
  }

  // ---------------------------------------------------------------------------
  // Descending along an index path

  /** A sequence of `move(to:)` calls, one per index of `path`. */
  ghost function Moves<T>(z: Zipper<T>, path: seq<int>): Result<Zipper<T>, TreeError>
    decreases |path|
  {
    if |path| == 0 then Ok(z)
    else
      match Move(z, path[0])
      case Err(e) => Err(e)
      case Ok(next) => Moves(next, path[1..])
  }

  /** Moving along `path` succeeds exactly when the path addresses a node; the focus
      is then that node, and the crumbs rebuild around any `x` the tree with that
      node replaced by `x`. */
  lemma {:induction false} MovesFocusAddressedNode<T>(tree: Tree<T>, crumbs: seq<Crumb<T>>, path: seq<int>)
    ensures Moves(Zipper(tree, crumbs), path).Ok? <==> ValidPath(tree, path)
    ensures ValidPath(tree, path) ==>
              Moves(Zipper(tree, crumbs), path).value.tree == Subtree(tree, path) &&
              forall x :: Plug(Moves(Zipper(tree, crumbs), path).value.breadcrumbs, x) == Plug(crumbs, PutAt(tree, path, x))
    decreases |path|
  {
    if |path| > 0 && tree.Branch? && 0 <= path[0] < |tree.children| {
      var i := path[0];
      var cs := tree.children;
      var crumb := Crumb(tree.value, (cs[..i], cs[i + 1..]));
      assert Move(Zipper(tree, crumbs), i) == Ok(Zipper(cs[i], [crumb] + crumbs));
      MovesFocusAddressedNode(cs[i], [crumb] + crumbs, path[1..]);
      if ValidPath(tree, path) {
        var end := Moves(Zipper(tree, crumbs), path).value;
        forall x
          ensures Plug(end.breadcrumbs, x) == Plug(crumbs, PutAt(tree, path, x))
        {
          var y := PutAt(cs[i], path[1..], x);
          assert Plug(end.breadcrumbs, x) == Plug([crumb] + crumbs, y);
          assert ([crumb] + crumbs)[1..] == crumbs;
          assert cs[..i] + [y] + cs[i + 1..] == cs[i := y];
        }
      }
    }
  }

  /** Putting back the node a path addresses gives the same tree. */
  lemma {:induction false} PutAtSubtree<T>(tree: Tree<T>, path: seq<int>)
    requires ValidPath(tree, path)
    ensures PutAt(tree, path, Subtree(tree, path)) == tree
    decreases |path|
  {
    if |path| > 0 {
      PutAtSubtree(tree.children[path[0]], path[1..]);
    }
  }

  /** Descending along any path and calling `top` without an edit rebuilds the
      original tree. */
  lemma MovesThenTopRestoresTree<T>(tree: Tree<T>, path: seq<int>)
    requires ValidPath(tree, path)
    ensures Moves(Init(tree), path).Ok?
    ensures Top(Moves(Init(tree), path).value) == Init(tree)
  {
    MovesFocusAddressedNode(tree, [], path);
    var z := Moves(Init(tree), path).value;
    TopRebuilds(z);
    PutAtSubtree(tree, path);
  }

  /** Descending along a path, updating the focus payload and calling `top` changes
      the tree at the addressed node alone; for a non-empty path this is
      `replacingTree(through:with:)` with the updated node. */
  lemma ZipperEditIsLocal<T>(tree: Tree<T>, path: seq<int>, f: T -> T)
    requires ValidPath(tree, path)
    ensures Moves(Init(tree), path).Ok?
    ensures Top(Update(Moves(Init(tree), path).value, f)).tree ==
              PutAt(tree, path, Updating(Subtree(tree, path), f(Subtree(tree, path).value)))
    ensures |path| > 0 ==>
              ReplacingTreeThrough(tree, path, Updating(Subtree(tree, path), f(Subtree(tree, path).value))) ==
              Ok(Top(Update(Moves(Init(tree), path).value, f)).tree)
  {
    MovesFocusAddressedNode(tree, [], path);
    var z := Moves(Init(tree), path).value;
    TopRebuilds(Update(z, f));
    ReplacingTreeThroughReplacesAddressedNode(tree, path, Updating(Subtree(tree, path), f(Subtree(tree, path).value)));
  }
}
