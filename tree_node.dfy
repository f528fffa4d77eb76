/** The older leaf-only tree (Collections/TreeNode.swift): containers hold only
    children, leaves hold the payloads. */
module TreeNodes {

  datatype TreeNode<T> = Container(children: seq<TreeNode<T>>) | Leaf(value: T)

  /** The accumulator walk of `leaves`. */
  function Flatten<T>(accum: seq<T>, node: TreeNode<T>): seq<T>
    decreases node, 1
  {
    match node
    case Container(children) => FlattenAll(accum, children)
    case Leaf(v) => accum + [v]
  }

  /** `children.reduce(accum, flatten)`. */
  function FlattenAll<T>(accum: seq<T>, nodes: seq<TreeNode<T>>): seq<T>
    decreases nodes, 0
  {
    if |nodes| == 0 then accum else FlattenAll(Flatten(accum, nodes[0]), nodes[1..])
  }

  /** `leaves`. */
  function Leaves<T>(node: TreeNode<T>): seq<T>
  {
    Flatten([], node)
  }

  /** The leaves of each node in turn. */
  ghost function LeavesOf<T>(nodes: seq<TreeNode<T>>): seq<T>
    decreases nodes
  {
    if |nodes| == 0 then [] else Leaves(nodes[0]) + LeavesOf(nodes[1..])
  }

  lemma {:induction false} FlattenAppends<T>(accum: seq<T>, node: TreeNode<T>)
    ensures Flatten(accum, node) == accum + Leaves(node)
    decreases node, 1
  {
    match node
    case Leaf(v) =>
    case Container(children) =>
      FlattenAllAppends(accum, children);
      FlattenAllAppends([], children);
  }

  lemma {:induction false} FlattenAllAppends<T>(accum: seq<T>, nodes: seq<TreeNode<T>>)
    ensures FlattenAll(accum, nodes) == accum + LeavesOf(nodes)
    decreases nodes, 0
  {
    if |nodes| > 0 {
      FlattenAppends(accum, nodes[0]);
      FlattenAllAppends(Flatten(accum, nodes[0]), nodes[1..]);
    }
  }

  /** A leaf's leaves are its payload; a container's are its children's in order,
      so an empty container has none. */
  lemma LeavesShape<T>(node: TreeNode<T>)
    ensures node.Leaf? ==> Leaves(node) == [node.value]
    ensures node.Container? ==> Leaves(node) == LeavesOf(node.children)
    ensures node == Container([]) ==> Leaves(node) == []
  {
    if node.Container? {
      FlattenAllAppends([], node.children);
    }
  }

  /** `init(_:)`: a container of leaves, one per element. */
  function FromSequence<T>(elements: seq<T>): (r: TreeNode<T>)
    ensures r.Container? && |r.children| == |elements|
    ensures forall i :: 0 <= i < |elements| ==> r.children[i] == Leaf(elements[i])
  {
    Container(seq(|elements|, i requires 0 <= i < |elements| => Leaf(elements[i])))
  }

  lemma {:induction false} LeavesOfLeafList<T>(elements: seq<T>)
    ensures LeavesOf(FromSequence(elements).children) == elements
    decreases |elements|
  {
    if |elements| > 0 {
      assert FromSequence(elements).children[1..] == FromSequence(elements[1..]).children;
      LeavesOfLeafList(elements[1..]);
      assert elements == [elements[0]] + elements[1..];
    }
  }

  /** The leaves of `init(elements)` are exactly `elements`. */
  lemma LeavesOfFromSequence<T>(elements: seq<T>)
    ensures Leaves(FromSequence(elements)) == elements
  {
    LeavesShape(FromSequence(elements));
    LeavesOfLeafList(elements);
  }
}
