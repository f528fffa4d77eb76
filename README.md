# Collections, modelled in Dafny

This project models the core of *Collections*, a Swift library of data
structures and array helpers.

- **Trees.** The immutable `Tree` enum: a leaf, or a branch with a payload and
  an array of children. Its operations are `leaves`, `updating`,
  `replacingTree(at:)`, `replacingTree(through:)`, `inserting(_:through:at:)`
  and `==`.
- **Zipper.** The `Zipper` that walks down a `Tree` and rebuilds it with `up`
  and `top`.
- **TreeNode.** The leaves-only tree.
- **Array helpers.** `split(at:)`, the list-processing views (`head`, `tail`,
  `destructured`, prepend and append operators), `replaceElement` and its
  relatives, and `removing(at:)`.
- **Sorted and ordered containers.** `SortedArray` (binary-search insertion),
  `SortedDictionary` and `OrderedDictionary`.
- **Other value types.** `Stack`, `CircularArray` (with Swift's truncating `%`
  corrected to a true modulus), `Matrix` (a row-major grid) and `KeyPath`.
- **`DictionaryType` extensions.** Building from parallel arrays, merging,
  array-valued and nested dictionaries, and the four `==` overloads.
- **Small helpers.** `adjacentPairs`, `subsets(cardinality:)`, `clamped`,
  `flipped`, the `String` subscripts and `Set.insert(contentsOf:)`.

How the Swift code becomes Dafny:

- **Pure code.** Enums and pure functions become datatypes, functions and
  lemmas.
- **Mutating code.** A `struct` whose `mutating` methods change its stored
  properties becomes a `class` with those fields. Its methods say what they
  modify and state the new state in terms of a specification function of the
  old one. The specification functions' properties are proved as lemmas.
- **Loops.** Loops in the source are loops here, with invariants:
  - the binary search of `index(for:)`;
  - `pop(amount:)`;
  - the column setter;
  - `insert(contentsOf:)`;
  - every dictionary merge;
  - `appendContents`;
  - the equality loops.
- **Value semantics.** Swift copies a struct when it is read. So every method
  that reads another value of its own type (`insertContents(of:)`,
  `appendContents(of:)`, `merge(with:)`) reads that value before changing
  anything. This is also right when the argument is the receiver itself.
- **Traps.** A Swift trap (a failed force-unwrap, an out-of-range subscript,
  `fatalError`) becomes a `requires`. Integer overflow traps are the exception:
  they are not modelled (see "Left out"). A thrown error or an optional result
  becomes `Result`/`Option`.
- **Element types.** `Comparable` element types are `int`. Hashable keys are
  any type with equality. `AnyHashable` in key paths is a string-or-integer key.

## Model

| member | source | states |
|---|---|---|
| Split.SplitAt | Collections/Split.swift:12-22 | nil exactly when the index is outside `[0, count]`; otherwise the two halves concatenate back to the array and the first has `index` elements |
| Split.SplitAndExtractElement | Collections/Zipper.swift:76 | nil exactly when the index is outside `[0, count)`; otherwise prefix, element and suffix concatenate back to the array, the element is the one at `index` |
| Split.SplitAtEnds | Collections/Split.swift:14-21 | splitting at `startIndex` gives `([], a)` and at `endIndex` gives `(a, [])` |
| ListProcessing.Head | Collections/ListProcessing.swift:14-16 | nil exactly for the empty array, otherwise the first element |
| ListProcessing.Tail | Collections/ListProcessing.swift:19-26 | nil exactly for the empty array, otherwise every element after the first, in order |
| ListProcessing.Destructured | Collections/ListProcessing.swift:30-33 | nil exactly for the empty array, otherwise head and tail that rebuild the array |
| ListProcessing.Prepend | Collections/ListProcessing.swift:58-60 | `head + tail` has `head` first and `tail` after it |
| ListProcessing.Append | Collections/ListProcessing.swift:63-65 | `list + item` has `list` first and `item` last |
| ListProcessing.DestructuredPrepend | Collections/ListProcessing.swift:30-33 | destructuring `head + tail` gives back `(head, tail)` |
| ListProcessing.PrependDestructured | Collections/ListProcessing.swift:30-33 | every non-empty array is the prepend of its destructured parts |
| ListProcessing.SliceHead | Collections/ListProcessing.swift:39-41 | a slice's head is the head of the elements it presents |
| ListProcessing.SliceTail | Collections/ListProcessing.swift:44-47 | nil exactly for an empty slice; otherwise the slice keeps its base and start index + 1, so indices are not rebased, and it presents the tail of the elements |
| ListProcessing.SliceDestructured | Collections/ListProcessing.swift:51-54 | nil exactly for an empty slice; otherwise head and rest present the slice's elements |
| CollectionListProcessing.CollectionHead | Sources/Collections/ListProcessing.swift:14-16 | nil exactly for an empty collection, otherwise its first element |
| CollectionListProcessing.CollectionTail | Sources/Collections/ListProcessing.swift:19-26 | nil exactly for an empty collection, otherwise `dropFirst()` as an array |
| CollectionListProcessing.CollectionDestructured | Sources/Collections/ListProcessing.swift:29-39 | nil exactly for an empty collection, otherwise head and tail that rebuild it |
| CollectionListProcessing.AgreesWithArrayVersions | Sources/Collections/ListProcessing.swift:14-39 | on arrays the collection versions equal the array versions |
| ReplaceElements.WithElementReplaced | Collections/ReplaceElements.swift:15-25 | `RemovalError` exactly for an index outside `[0, count)`; otherwise only position `index` changes, to `element` |
| ReplaceElements.ReplaceElement | Collections/ReplaceElements.swift:15-25 | removing then inserting at `index` leaves the array as `WithElementReplaced` says; on error nothing changes |
| ReplaceElements.ReplacingElement | Collections/ReplaceElements.swift:28-32 | the copy-then-replace result is `WithElementReplaced` of the argument |
| ReplaceElements.ReplaceLast | Collections/ReplaceElements.swift:35-43 | fails exactly on an empty array, changing nothing; otherwise only the last element changes |
| ReplaceElements.ReplaceFirst | Collections/ReplaceElements.swift:49-53 | fails exactly on an empty array, changing nothing; otherwise only the first element changes |
| ArrayExtensions.AppendOptional | Collections/ArrayExtensions.swift:13-20 | `lhs + nil == lhs`, `lhs + x == lhs + [x]` |
| ArrayExtensions.WithoutElement | Collections/ArrayExtensions.swift:23-27 | one element shorter, earlier elements kept, later ones shifted down by one, and the multiset loses exactly the removed element |
| ArrayExtensions.Removing | Collections/ArrayExtensions.swift:23-27 | the copy-then-remove result is `WithoutElement` of the argument |
| Trees.FlattenedAppends | Collections/Tree.swift:44-51 | the accumulating walk appends the tree's leaves to the accumulator |
| Trees.FlattenedAllAppends | Collections/Tree.swift:47 | folding the walk over the children appends all their leaves, left to right |
| Trees.LeavesShape | Collections/Tree.swift:42-54 | a leaf's leaves are its value; a branch's leaves are its children's leaves in order |
| Trees.LeavesOfChildlessBranch | Collections/Tree.swift:42-54 | a branch with no children has no leaves |
| Trees.LeavesOfAround | Collections/Tree.swift:42-54 | the leaves of a child list are those before child `i`, child `i`'s own, then those after |
| Trees.FromSequence | Collections/Tree.swift:59-61 | `init(_:_:)` is a branch with the payload and one leaf per element, in order |
| Trees.LeavesOfFromSequence | Collections/Tree.swift:59-61 | the leaves of `init(v, elements)` are exactly `elements` |
| Trees.Updating | Collections/Tree.swift:64-71 | the payload becomes `v`, the variant is kept and a branch keeps its children |
| Trees.UpdatingBranchKeepsLeaves | Collections/Tree.swift:64-71 | updating a branch's payload leaves its leaves unchanged |
| Trees.SafeIndex | Collections/Tree.swift:104 | `trees[safe:]` is some exactly for an index in range, and then it is that element |
| Trees.ReplacingTreeAt | Collections/Tree.swift:76-83 | a leaf throws `branchOperationPerformedOnLeaf`; an index out of range throws the array's `removalError`; otherwise only child `index` changes |
| Trees.LeavesAfterReplacingTreeAt | Collections/Tree.swift:76-83 | the new leaves are those of the children before `index`, the new subtree's, then those after |
| Trees.ReplacingTreeThroughReplacesAddressedNode | Collections/Tree.swift:88-123 | succeeds exactly for a non-empty path that addresses a node, and then replaces exactly that node |
| Trees.ReplacingTreeThroughErrors | Collections/Tree.swift:95-107 | every failure is a tree error: a leaf root gives `branchOperationPerformedOnLeaf`; an empty path or an out-of-range first index gives `illFormedIndexPath`; a longer path through a child fails exactly when the rest of the path fails in that child, with the same error |
| Trees.ReplacingTreeThroughSingleIndex | Collections/Tree.swift:110-112 | a one-index path agrees with `replacingTree(at:)`, except that out of range it reports an ill-formed path |
| Trees.Insert | Collections/Tree.swift:171-178 | fails with `illFormedIndexPath` exactly for an index outside `[0, count]`; otherwise splices the element in at `index` |
| Trees.InsertingAtRoot | Collections/Tree.swift:143-152 | with an empty path: a leaf refuses; an index outside `[0, count]` is ill-formed; otherwise the new tree becomes child `index`, and at `count` it is appended |
| Trees.LeavesAfterInsertingAtRoot | Collections/Tree.swift:150-152 | the new tree's leaves land between those of the children before and after `index`, and the leaf count is the sum |
| Trees.InsertingThroughPath | Collections/Tree.swift:154-164 | with a non-empty path: an out-of-range head is ill-formed; otherwise it recurses into child `head` and re-attaches the result at child `index` |
| Trees.InsertingAgreesWhenHeadsMatchIndex | Collections/Tree.swift:129-169 | when every path index equals `index`, the as-written insertion is the intended one |
| Trees.InsertingReattachesAtWrongChild | Collections/Tree.swift:164 | a concrete tree where the as-written insertion overwrites the wrong child |
| Trees.IntendedInsertingInsertsAtAddressedNode | Collections/Tree.swift:125-131 | the intended insertion succeeds exactly when the path addresses a branch and `index` is in `[0, count]`, and then it inserts only under that branch |
| Trees.TreeEquals | Collections/Tree.swift:210-219 | `==` on trees holds exactly when the trees are structurally equal |
| Trees.TreesEqual | Collections/Tree.swift:227-240 | `==` on tree arrays, with its count guard and early-exit loop, holds exactly when the arrays are equal |
| Zippers.Init | Collections/Zipper.swift:56-59 | focus on the tree with no breadcrumbs |
| Zippers.Up | Collections/Zipper.swift:32-42 | with no crumbs it is the identity; otherwise it drops one crumb and focuses a branch |
| Zippers.UpKeepsReconstruction | Collections/Zipper.swift:32-42 | `up` never changes the tree the zipper stands for |
| Zippers.Top | Collections/Zipper.swift:44-51 | `top` has no breadcrumbs left |
| Zippers.TopRebuilds | Collections/Zipper.swift:44-51 | `top` is the whole tree rebuilt from the crumbs around the focus |
| Zippers.TopOfFreshZipper | Collections/Zipper.swift:44-59 | `top` of a fresh zipper is that zipper |
| Zippers.Move | Collections/Zipper.swift:66-83 | a leaf throws `branchOperationPerformedOnLeaf`; an out-of-range index throws `illFormedIndexPath`; otherwise it focuses child `index` and pushes a crumb with the payload and the siblings on each side |
| Zippers.MoveThenUp | Collections/Zipper.swift:32-83 | `up` undoes a successful `move` |
| Zippers.TopAfterMove | Collections/Zipper.swift:44-83 | `move` does not change what `top` rebuilds |
| Zippers.MovesFocusAddressedNode | Collections/Zipper.swift:66-83 | moving along a path succeeds exactly when the path addresses a node; the focus is then that node, and the crumbs rebuild the tree with that node replaced |
| Zippers.PutAtSubtree | Collections/Tree.swift:88-123 | putting back the addressed node gives the same tree |
| Zippers.MovesThenTopRestoresTree | Collections/Zipper.swift:44-83 | descending along a valid path and going to the top without an edit gives the original tree |
| Zippers.Update | Collections/Zipper.swift:86-93 | the crumbs are kept and the focus gets `f` of its payload, keeping its variant |
| Zippers.UpdateValue | Collections/Zipper.swift:96-98 | `update(value:)` sets the focus payload to `value` |
| Zippers.ZipperEditIsLocal | Collections/Zipper.swift:86-98 | descend, update and go to the top changes only the addressed node, and for a non-empty path equals `replacingTree(through:with:)` |
| TreeScenarios.DeeperPathErrors | Collections/Tree.swift:92-106 | path `[0, 0]` into the leaf child of `Branch(0, [Leaf(1)])` gives `branchOperationPerformedOnLeaf`; `[0, 5]` into a one-child branch child gives `illFormedIndexPath` |
| TreeScenarios.ReplaceMiddleLeaf | Collections/Tree.swift:76-83 | replacing the middle of leaves 1, 2, 3 with 0 gives leaves 1, 0, 3 |
| TreeScenarios.MoveToFirstChild | Collections/Zipper.swift:66-83 | concrete `move` results, including both errors |
| TreeScenarios.NestedInsertion | Collections/Tree.swift:129-169 | inserting five leaves three levels down puts them in the middle of the leaf order |
| TreeScenarios.DoubleNestedEdit | Collections/Zipper.swift:66-98 | moving twice, doubling the payload and going to the top rebuilds the tree with just that leaf changed |
| TreeScenarios.DoubleNestedLeaf | Collections/Zipper.swift:66-98 | the same edit leaves the leaves `[1, 2, 6, 4, 5]` |
| TreeNodes.FlattenAppends | Collections/TreeNode.swift:25-32 | the accumulating walk appends the node's leaves |
| TreeNodes.FlattenAllAppends | Collections/TreeNode.swift:28 | the fold over children appends all their leaves in order |
| TreeNodes.LeavesShape | Collections/TreeNode.swift:23-35 | a leaf gives its value; a container gives its children's leaves; an empty container gives none |
| TreeNodes.FromSequence | Collections/TreeNode.swift:40-42 | `init(_:)` is a container of one leaf per element |
| TreeNodes.LeavesOfFromSequence | Collections/TreeNode.swift:23-42 | the leaves of `init(s)` are `s` |
| SortedArrays.LowerBound | Collections/SortedArray.swift:61-73 | the insertion point: every earlier element is smaller, the one there is not |
| SortedArrays.LowerBoundSplits | Collections/SortedArray.swift:61-73 | in a sorted array it is the unique position splitting smaller elements from the rest |
| SortedArrays.InsertSortedSpec | Collections/SortedArray.swift:39-42 | inserting at the lower bound keeps the order and adds exactly one copy of the element |
| SortedArrays.InsertAllSpec | Collections/SortedArray.swift:45-49 | inserting each element in turn keeps the order and adds exactly those elements |
| SortedArrays.SortedUnique | Collections/SortedArray.swift:22-24 | two sorted arrays with the same multiset are equal |
| SortedArrays.SortSpec | Collections/SortedArray.swift:22-24 | the initialiser's result is sorted, a permutation of its input, and the only such array |
| SortedArrays.FirstIndex | Collections/SortedArray.swift:32 | `Array.index(of:)`: none exactly when absent, otherwise the first occurrence |
| SortedArrays.RemovedSpec | Collections/SortedArray.swift:31-34 | `remove` keeps the order; it deletes one copy when present and changes nothing when absent |
| SortedArrays.DeletionKeepsOrder | Collections/SortedArray.swift:33 | deleting any position of a sorted array leaves it sorted |
| SortedArrays.SortedArray.constructor | Collections/SortedArray.swift:22-24 | the elements are `Sort(source)` |
| SortedArrays.SortedArray.IndexFor | Collections/SortedArray.swift:61-73 | the binary search returns the lower bound |
| SortedArrays.SortedArray.Insert | Collections/SortedArray.swift:39-42 | the new elements are the old ones with `e` at its lower bound |
| SortedArrays.SortedArray.InsertContentsOf | Collections/SortedArray.swift:45-49 | the new elements are `InsertAll` of the old ones and the sequence |
| SortedArrays.SortedArray.Remove | Collections/SortedArray.swift:31-34 | the new elements are `Removed` of the old ones |
| SortedArrays.SortedArray.IndexOf | Collections/SortedArray.swift:52-56 | none exactly when absent, otherwise the first position holding the element |
| SortedArrays.SortedArray.Contains | Collections/SortedArray.swift:117-119 | true exactly when the element is present |
| SortedArrays.SortedArray.Min | Collections/SortedArray.swift:102-104 | none exactly when empty, otherwise the least element |
| SortedArrays.SortedArray.Max | Collections/SortedArray.swift:107-109 | none exactly when empty, otherwise the greatest element |
| SortedArrays.SortedArray.IndexAfter | Collections/SortedArray.swift:81-84 | exactly `i + 1`, for an `i` before `endIndex` |
| SortedArrays.SortedArray.IndexBefore | Collections/SortedArray.swift:127-130 | exactly `i - 1`, for an `i` after `startIndex` |
| SortedArrays.Plus | Collections/SortedArray.swift:161-165 | `lhs + rhs` is `lhs` with every element of `rhs` inserted |
| SortedArrays.PlusIsSortedUnion | Collections/SortedArray.swift:156-175 | `+` gives the sorted multiset union; it is commutative; the empty `zero`/`identity` is its unit |
| SortedArrays.EqualityIsMultisetEquality | Collections/SortedArray.swift:146-148 | `==` on element arrays is equality of the multisets they hold |
| Stacks.PopUndoesPush | Collections/Stack.swift:49-63 | popping after pushing `x` returns `x` and the old stack |
| Stacks.PoppedAmountSplits | Collections/Stack.swift:66-75 | nil exactly when `count <= amount`; otherwise the remaining stack followed by the popped stack reversed is the original |
| Stacks.Reverse | Collections/Stack.swift:73 | `reversed()`: the same length, with position `i` holding the element `i` places from the back |
| Stacks.Stack.constructor | Collections/Stack.swift:42-44 | the elements are the source's |
| Stacks.Stack.Top | Collections/Stack.swift:17-19 | none exactly when empty, otherwise the last element |
| Stacks.Stack.Push | Collections/Stack.swift:49-51 | the item is appended and becomes the top |
| Stacks.Stack.Pushing | Collections/Stack.swift:54-58 | a fresh stack with the item pushed; the receiver is unchanged |
| Stacks.Stack.Pop | Collections/Stack.swift:61-63 | returns and removes the top, or nil on an empty stack |
| Stacks.Stack.PopAmount | Collections/Stack.swift:66-75 | matches `PoppedAmount`: nil and unchanged when `count <= amount`, otherwise the top `amount` items in pop order |
| Stacks.Stack.Destructured | Collections/Stack.swift:25-34 | nil exactly when empty; otherwise the top and a fresh copy without it |
| Stacks.Stack.EndIndex | Collections/Stack.swift:101-103 | the number of elements |
| Stacks.Stack.At | Collections/Stack.swift:106-108 | the element at that position from the bottom; the last position is the top |
| Stacks.Stack.IndexAfter | Collections/Stack.swift:86-93 | the next index, refusing `endIndex` |
| Stacks.Equals | Collections/Stack.swift:123-125 | equal exactly when the element arrays are equal element by element |
| SortedDictionaries.SortedDictionary.constructor | Collections/SortedDictionary.swift:29 | empty keys and values |
| SortedDictionaries.SortedDictionary.Insert | Collections/SortedDictionary.swift:36-39 | the key is inserted into the sorted keys even when present, and the value is set |
| SortedDictionaries.SortedDictionary.InsertUnique | Collections/SortedDictionary.swift:33-39 | the intended insert: a present key keeps its one place, so keys without repeats stay so |
| SortedDictionaries.InsertAbsentKeepsStrict | Collections/SortedDictionary.swift:36-39 | inserting an absent key keeps the keys strictly ascending |
| SortedDictionaries.InsertPresentKeyRepeatsIt | Collections/SortedDictionary.swift:37 | inserting a present key adds a second copy of it: one more position, the same key set, no longer strictly ascending |
| SortedDictionaries.SortedDictionary.InsertContents | Collections/SortedDictionary.swift:44-47 | every pair of the other dictionary inserted in key order: keys `InsertAll`, values overridden by the other's |
| SortedDictionaries.SortedDictionary.ValueAt | Collections/SortedDictionary.swift:52-55 | nil at or past the end; otherwise the value of the key at that position |
| SortedDictionaries.SortedDictionary.EndIndex | Collections/SortedDictionary.swift:78-80 | the number of keys |
| SortedDictionaries.SortedDictionary.IndexAfter | Collections/SortedDictionary.swift:63-70 | the next index, refusing `endIndex` |
| SortedDictionaries.SortedDictionary.At | Collections/SortedDictionary.swift:83-87 | the key at that position and its value; no earlier key is larger |
| SortedDictionaries.FromLiteral | Collections/SortedDictionary.swift:95-102 | the keys are the literal's keys sorted; each key holds the value of its last pair |
| SortedDictionaries.LiteralIsOrderedByKey | Collections/SortedDictionary.swift:95-102 | whatever the literal order, the keys come out sorted, a permutation of the literal's, and the last pair for a key wins |
| CircularArrays.Rem | Collections/CircularArray.swift:109 | Swift's `%` truncates: non-negative for a non-negative dividend, in `(-m, 0]` for a negative one |
| CircularArrays.Mod | Collections/CircularArray.swift:108-111 | the result is in `[0, modulus)` |
| CircularArrays.ModIsEuclidean | Collections/CircularArray.swift:108-111 | `mod` is the true modulus: it differs from the dividend by a multiple of the modulus |
| CircularArrays.ModPeriodic | Collections/CircularArray.swift:108-111 | `mod(d + m, m) == mod(d, m)` |
| CircularArrays.CircularArray.CircularIndex | Collections/CircularArray.swift:64-66 | the index modulo the count, and the identity on indices in range |
| CircularArrays.CircularArray.Circular | Collections/CircularArray.swift:25-27 | `subscript(circular:)` reads the element at the index modulo the count |
| CircularArrays.CircularPeriodic | Collections/CircularArray.swift:25-27 | the circular subscript repeats with period `count` |
| CircularArrays.CircularArray.FromThrough | Collections/CircularArray.swift:35-47 | the elements from the start's circular index through the end's, wrapping when needed: its length, each element, and the first and last |
| CircularArrays.CircularArray.AfterUpTo | Collections/CircularArray.swift:55-57 | `from: start + 1 through: end - 1` |
| CircularArrays.CircularArray.Removing | Collections/CircularArray.swift:60-62 | the storage without the element at `index` |
| CircularArrays.CircularArray.IndexAfter | Collections/CircularArray.swift:87-94 | the next index, refusing indices at or past the end |
| CircularArrays.CircularArray.IndexBefore | Collections/CircularArray.swift:97-104 | the previous index, refusing the start |
| Matrices.OffsetLayout | Collections/Matrix.swift:99-106 | every in-range cell has an offset inside the grid, and different cells have different offsets |
| Matrices.Matrix.constructor | Collections/Matrix.swift:36-40 | `height * width` copies of `initial` |
| Matrices.Matrix.Index | Collections/Matrix.swift:99-106 | nil exactly when row or column is at or past its count; otherwise the row-major offset |
| Matrices.Matrix.Get | Collections/Matrix.swift:46-55 | the cell at the row-major offset |
| Matrices.Matrix.Set | Collections/Matrix.swift:57-64 | only that cell changes |
| Matrices.Matrix.Row | Collections/Matrix.swift:68-74 | the `columnCount` cells of that row, left to right |
| Matrices.Matrix.SetRow | Collections/Matrix.swift:76-80 | the row's range is replaced by the new values; with the right length, reading the row gives them back |
| Matrices.Matrix.Column | Collections/Matrix.swift:84-88 | the column's cell in each row, top to bottom |
| Matrices.Matrix.SetColumn | Collections/Matrix.swift:90-96 | the loop writes `newValue[i]` into row `i` of the column (`WriteColumn`) |
| Matrices.WriteColumnWrites | Collections/Matrix.swift:90-96 | after the column setter, row `i` of the column holds `newValue[i]` |
| Matrices.WriteColumnKeeps | Collections/Matrix.swift:90-96 | the column setter leaves every other column alone |
| Matrices.SetColumnThenRead | Collections/Matrix.swift:84-96 | reading a column after setting it gives the new values |
| Matrices.Matrix.Rows | Collections/Matrix.swift:26-28 | one row per row index |
| Matrices.Matrix.Columns | Collections/Matrix.swift:31-33 | one column per column index |
| Matrices.ValidMatrixShape | Collections/Matrix.swift:26-33 | a well-formed matrix has `rowCount` rows and `columnCount` columns, all readable |
| Matrices.Matrix.EndIndex | Collections/Matrix.swift:129-131 | the grid size, `rowCount * columnCount` |
| Matrices.Equals | Collections/Matrix.swift:140-142 | equal exactly when the grids are equal cell by cell |
| Matrices.DimensionsAreNotCompared | Collections/Matrix.swift:140-142 | a 2×3 and a 3×2 matrix of zeros compare equal, because only the grids are compared |
| OrderedDictionaries.Without | Collections/OrderedDictionary.swift:36 | the filter drops every copy of the key and keeps every other key with its multiplicity |
| OrderedDictionaries.OrderedDictionary.constructor | Collections/OrderedDictionary.swift:23 | empty keys and values |
| OrderedDictionaries.OrderedDictionary.Get | Collections/OrderedDictionary.swift:28-30 | the value for the key, if any |
| OrderedDictionaries.OrderedDictionary.Set | Collections/OrderedDictionary.swift:32-42 | nil removes the key from both; a present key keeps its position; a new key is appended; afterwards the getter returns the new value |
| OrderedDictionaries.OrderedDictionary.Append | Collections/OrderedDictionary.swift:46-49 | the key is appended and the value set |
| OrderedDictionaries.OrderedDictionary.Insert | Collections/OrderedDictionary.swift:52-55 | the key is inserted at `index` and the value set |
| OrderedDictionaries.OrderedDictionary.AppendContents | Collections/OrderedDictionary.swift:58-63 | the other's keys are appended and its values override |
| OrderedDictionaries.OrderedDictionary.ValueAt | Collections/OrderedDictionary.swift:66-73 | nil outside `[0, count)`; otherwise the value of the key at that position |
| OrderedDictionaries.FromLiteral | Collections/OrderedDictionary.swift:108-115 | the keys in literal order and each key with the value of its last pair |
| OrderedDictionaries.Equals | Collections/OrderedDictionary.swift:78-101 | equal exactly when the key arrays and the value maps are equal |
| DictionaryTypes.Zip | Collections/DictionaryType.swift:59 | the pairs of the two arrays up to the shorter length |
| DictionaryTypes.Dictionary.FromArrays | Collections/DictionaryType.swift:57-60 | every zipped pair assigned in order |
| DictionaryTypes.FromArraysSpec | Collections/DictionaryType.swift:57-60 | the keys are the zipped `xs`, and a key holds the `y` of its last occurrence |
| DictionaryTypes.AssignEach | Collections/DictionaryType.swift:76-78 | assigning every entry of `other` gives `d + other` |
| DictionaryTypes.Dictionary.Merge | Collections/DictionaryType.swift:76-78 | the argument's values override |
| DictionaryTypes.ArrayHelpersSpec | Collections/DictionaryType.swift:86-106 | ensuring, appending and appending contents create the key's array when missing, extend only that array, and keep every other entry |
| DictionaryTypes.UniquelyAppendedSpec | Collections/DictionaryType.swift:118-126 | a value already present changes nothing beyond ensuring the key; otherwise it is appended; the operation is idempotent |
| DictionaryTypes.ArrayDictionary.EnsureValue | Collections/DictionaryType.swift:86-90 | `Ensured` of the old entries |
| DictionaryTypes.ArrayDictionary.SafelyAppend | Collections/DictionaryType.swift:95-98 | `Appended` of the old entries |
| DictionaryTypes.ArrayDictionary.SafelyAppendContents | Collections/DictionaryType.swift:103-106 | `AppendedContents` of the old entries |
| DictionaryTypes.ArrayDictionary.SafelyAndUniquelyAppend | Collections/DictionaryType.swift:118-126 | `UniquelyAppended` of the old entries |
| DictionaryTypes.NestedMergedSpec | Collections/DictionaryType.swift:174-181 | the nested merge sets every sub-entry of the argument, keeps every other sub-entry and adds no other key |
| DictionaryTypes.NestedDictionary.EnsureValue | Collections/DictionaryType.swift:137-141 | a missing key gets an empty sub-dictionary; otherwise nothing changes |
| DictionaryTypes.NestedDictionary.MergeEntry | Collections/DictionaryType.swift:176-179 | one outer step: the key's sub-dictionary is created if missing and the argument's sub-entries assigned into it |
| DictionaryTypes.NestedDictionary.Merge | Collections/DictionaryType.swift:174-181 | the result is `NestedMerged` of the old entries and the argument |
| DictionaryTypes.SubmapBothWays | Collections/DictionaryType.swift:278-288 | containment in both directions is equality |
| DictionaryTypes.Equals | Collections/DictionaryType.swift:278-288 | true exactly when every key of `lhs` is in `rhs` with an equal value |
| DictionaryTypes.EqualsIsOneSided | Collections/DictionaryType.swift:282-287 | `[:] == [0: 1]` holds although the dictionaries differ |
| DictionaryTypes.EqualsBothWays | Collections/DictionaryType.swift:276 | the intended `==` is true exactly when the dictionaries are equal |
| DictionaryTypes.ArrayEquals | Collections/DictionaryType.swift:303-317 | true exactly when every key of `lhs` is in `rhs` with an equal array |
| DictionaryTypes.ArrayEqualsIsOneSided | Collections/DictionaryType.swift:309-316 | `[:] == [0: [1]]` holds although the dictionaries differ |
| DictionaryTypes.NestedEquals | Collections/DictionaryType.swift:334-346 | true exactly when every key of `lhs` is in `rhs` with a sub-dictionary that compares unequal |
| DictionaryTypes.NestedEqualsIsInverted | Collections/DictionaryType.swift:341 | `[0: [0: 0]]` does not equal itself under the nested `==` as written |
| DictionaryTypes.NestedArrayEquals | Collections/DictionaryType.swift:363-376 | true exactly when every key of `lhs` is in `rhs` with a sub-dictionary that `lhs`'s is contained in |
| DictionaryTypes.NestedArrayEqualsIsOneSided | Collections/DictionaryType.swift:371-375 | a nested dictionary with an empty sub-dictionary equals one whose sub-dictionary has entries |
| DictionaryTypes.NestedEqualsBothWays | Collections/DictionaryType.swift:332 | the intended nested `==` is true exactly when the dictionaries are equal |
| KeyPaths.ComponentsSpec | Collections/KeyPath.swift:30-32 | splitting on "." gives one more piece than there are dots, no piece contains a dot, and joining with "." gives back the string |
| KeyPaths.KeyPath.EndIndex | Collections/KeyPath.swift:63-65 | the number of keys |
| KeyPaths.KeyPath.At | Collections/KeyPath.swift:68-70 | the key at that position |
| KeyPaths.KeyPath.IndexAfter | Collections/KeyPath.swift:48-55 | the next index, refusing `endIndex` |
| KeyPaths.FromKeys | Collections/KeyPath.swift:16-25 | the keys in the given order |
| KeyPaths.FromString | Collections/KeyPath.swift:30-32 | one string key per dot-separated component |
| KeyPaths.FromStringSpec | Collections/KeyPath.swift:30-32 | a string literal with `n` dots gives `n + 1` keys; "a.b.2.ok.g" gives five, starting with "a" |
| AdjacentPairs.AdjacentPairs | Collections/AdjacentPairs.swift:13-21 | empty for an empty array; otherwise each element paired with the next, plus (last, first) when wrapped |
| AdjacentPairs.PairsWalkTheSequence | Collections/AdjacentPairs.swift:19-20 | the first components are every element but the last and the second components every element but the first; when wrapped, the firsts are all elements and the seconds are the array rotated by one |
| AdjacentPairs.SingleElement | Collections/AdjacentPairs.swift:19-20 | one element gives no pairs, or the element paired with itself when wrapped |
| Subsets.ChooseCount | Collections/Subsets.swift:16-44 | the helper yields C(count − index, k) choices, and one (the prefix) for `k <= 0` |
| Subsets.ChooseShape | Collections/Subsets.swift:16-44 | every choice is the prefix followed by `k` elements taken in order from `index` on |
| Subsets.ChooseOrder | Collections/Subsets.swift:29-40 | the choices that take `self[index]` are listed first |
| Subsets.BinomialAboveN | Collections/Subsets.swift:43 | choosing more than there are gives no choice |
| Subsets.SubsetsSpec | Collections/Subsets.swift:14-47 | `[[]]` for `k <= 0`, nothing for `k > count`, otherwise C(count, k) subsets, each an in-order choice of `k` elements |
| Subsets.PairsOfThree | Collections/Subsets.swift:14-47 | the 2-subsets of `[1, 2, 3]` are `[1, 2]`, `[1, 3]`, `[2, 3]`, in that order |
| ComparableExtensions.Clamped | Collections/ComparableExtensions.swift:10-17 | within the range; the lower bound below it, the upper bound above it, the value itself inside |
| ComparableExtensions.ClampedSpec | Collections/ComparableExtensions.swift:10-17 | clamping is idempotent, and no value in the range is closer to the input |
| Flipped.Flipped | Collections/Flipped.swift:10-12 | the pair with its components swapped |
| Flipped.FlippedTwice | Collections/Flipped.swift:10-12 | flipping twice gives the original pair |
| SetExtensions.MutableSet.Insert | SetExtensions.swift:14 | the set gains the element |
| SetExtensions.MutableSet.InsertContentsOf | SetExtensions.swift:12-16 | the set becomes its union with `other` |
| SetExtensions.InsertContentsOfSpec | SetExtensions.swift:12-16 | the union holds both sets and nothing else, and inserting the same contents again changes nothing |
| StringExtensions.CharAt | Collections/StringExtensions.swift:12-19 | nil exactly at or past the end; otherwise the character at that offset |
| StringExtensions.StringAt | Collections/StringExtensions.swift:22-30 | nil exactly at or past the end; otherwise the one-character string there |
| StringExtensions.Substring | Collections/StringExtensions.swift:33-40 | the characters from the lower to the upper offset |
| StringExtensions.Destructured | Collections/StringExtensions.swift:44-52 | nil exactly for the empty string; otherwise a one-character head and a tail that rebuild the string |
| StringExtensions.Examples | Collections/StringExtensions.swift:12-52 | "123" gives ("1", "23"); "1" gives ("1", ""); "" gives nil; the character at 4 of "string" is 'n', none at 0 of ""; the string at 2 of "string" is "r" |

## Left out

- `Tree.description` (Collections/Tree.swift:184-206) is text rendering for display and is not modelled.
- The key-path methods of nested dictionaries are not modelled: `update(_:keyPath:)`, and `ensureValue(for:)`, `safelyAppend` and `safelyAppendContents` over a key path. They need run-time casts of `AnyHashable` keys to the dictionary's key types (`as? Key`), which have no counterpart here.
- The `!=` operators are the negation of the matching `==` and are not modelled separately.
- The collection wrappers, `MutableGraph`, the `Algebra` protocols and `Sequence+Monoid` are not part of this model.
- `Comparable` is modelled by `int` only. Swift's `Character` is modelled by Dafny's `char`, with no grapheme clusters. `AnyHashable` is only a string or an integer key.
- Swift traps are preconditions, so a trapping call is excluded rather than modelled as a crash. This covers force-unwraps, out-of-range subscripts, `fatalError`, a negative `pop(amount:)` and a negative product in the `Matrix` initialiser.
- Arithmetic overflow is not modelled. Dafny's `int` is unbounded, so where Swift's `Int` traps on overflow the model returns the mathematical value instead. This affects `rowCount * columnCount` in the `Matrix` initialiser (Collections/Matrix.swift:39), the offsets `row * columnCount + column` and `row * columnCount + columnCount` (Collections/Matrix.swift:72-78, 105), and `i + 1` in every `index(after:)` near `Int.max`.
- The order of dictionary and set iteration is unspecified in Swift. The loops over maps and sets take the keys in any order, and their results do not depend on it.
- The plain positional subscripts of `CircularArray` and `Matrix`, and their `startIndex`/`endIndex`/`index(after:)`, are plain array reads. They are covered only where another member states them (`Circular` on indices in range, `Matrix.EndIndex`).
- `SortedArray.sorted()`, `count` and `startIndex` return the stored array, its length and 0, and have no separate member.
- `Matrix.Index` rejects only rows and columns at or past their counts, as the source does. A negative column then reads a cell of the previous row. This is stated in `Index`'s contract but not listed as a finding.
- SortedDictionaries.SortedDictionary.ValueAt: a negative index traps in the source and is excluded by its precondition.
- `ReplaceElements.ReplaceFirst` assumes the throwing `removeFirst()` used there reports an empty array with `RemovalError`. That helper is not part of this model.
- The column setter on a `NestedDictionary` entry (`self[key]![subKey] = value`) is modelled by copying the sub-dictionary, assigning into the copy and storing it back. For Swift value types this has the same result.

## Findings

| source | as written | input that shows it | evidently intended | confidence | as-written member | corrected member |
|---|---|---|---|---|---|---|
| Collections/Tree.swift:164 | after recursing into child `head`, the rebuilt child replaces child `index` of the current node | `branch(0, [branch(1, [leaf 3]), leaf 2])`, inserting `leaf 9` through `[0]` at 1: child 1 is overwritten and child 0 is unchanged | the rebuilt child goes back at position `head` | high; not executed | Trees.InsertingReattachesAtWrongChild | Trees.IntendedInsertingInsertsAtAddressedNode |
| Collections/DictionaryType.swift:282-287 | flat `==` checks only the keys of `lhs` | `[:] == [0: 1]` is true | equal key sets and equal values | high; not executed | DictionaryTypes.EqualsIsOneSided | DictionaryTypes.EqualsBothWays |
| Collections/DictionaryType.swift:309-316 | array-valued `==` checks only the keys of `lhs` | `[:] == [0: [1]]` is true | equal key sets and equal arrays | high; not executed | DictionaryTypes.ArrayEqualsIsOneSided | DictionaryTypes.EqualsBothWays |
| Collections/DictionaryType.swift:341 | nested `==` fails when the sub-dictionaries are equal (`lhsDict != rhsDict` in the guard) | `[0: [0: 0]] == [0: [0: 0]]` is false | sub-dictionaries must be equal | high; not executed | DictionaryTypes.NestedEqualsIsInverted | DictionaryTypes.NestedEqualsBothWays |
| Collections/DictionaryType.swift:371-375 | nested-array `==` checks only the keys of `lhs`, at both levels | `[0: [:]] == [0: [0: [1]]]` is true | equal at both levels | high; not executed | DictionaryTypes.NestedArrayEqualsIsOneSided | DictionaryTypes.NestedEqualsBothWays |
| Collections/SortedDictionary.swift:37 | `insert(_:key:)` always inserts the key into the sorted keys | inserting key 1 again into `[1: "a"]` gives keys `[1, 1]`, two positions and one entry | a present key keeps its single position and only its value changes | medium; not executed | SortedDictionaries.InsertPresentKeyRepeatsIt | SortedDictionaries.SortedDictionary.InsertUnique |
