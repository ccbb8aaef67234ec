# Binary search tree (index.js) in Dafny

This project models `index.js`, a binary search tree over totally ordered values. Values are modelled as `int`, because the source compares them with `<`, `>` and `===`. The tree has these parts:

- a `Node` class holding a `value` and `left`/`right` links;
- a `Tree` class holding `root`, built by bisection (`buildTree`) from the constructor's array;
- `insert` and `delete`, which recurse and rewrite node fields in place, each returning the new subtree root;
- `findMin` (a loop down the left links) and `find`;
- the four traversals: level-order with a queue, and in-, pre- and post-order by recursion.

The model has two layers.

- `bst.dfy`, module `Bst`, is the value model. The datatype `Tree = Nil | Node(left, value, right)` stands for a subtree. `Build`, `Insert`, `Delete`, `Min`, `Find`, `InOrder`, `PreOrder`, `PostOrder` and `LevelOrder` are functions on it. The lemmas state what the source promises: the ordering invariant, the value sets, the orders of the traversals and the shape of a built tree.
- `index.dfy`, module `BinarySearchTree`, is the heap model. It follows the source statement by statement. `Node` and `Tree` are classes. `InsertAt` and `DeleteAt` are the recursive `insert(value, node)` and `delete(value, node)`, and they assign `node.left`, `node.right` and `node.value` in place. `FindMin` is a `while` loop. `LevelOrderForEach` shifts from and pushes to a `seq<Node>` queue. Each node carries a ghost `Model` (the `Bst.Tree` it roots) and a ghost footprint `Repr`. Every operation is proved to act on `Model` as the matching `Bst` function.

The public `tree.insert(v)` and `tree.delete(v)` calls never store the returned root back into `this.root`. The heap model keeps this. What remains after such a call is exactly the in-place changes below the existing root. `Bst.InsertDiscarded` and `Bst.DeleteDiscarded` state this effect, and the `## Findings` section lists the consequences.

The constructor computes a sorted, deduplicated copy (index.js:10) but builds from the raw array (index.js:11).

## Model

| member | source | states |
|---|---|---|
| `Bst.InOrderContents` | index.js:115-120 | in-order visits each node exactly once: its length is the node count, its multiset is the tree's elements, and its members are the tree's values |
| `Bst.PreOrderContents` | index.js:130-135 | pre-order (node, left, right) visits each node exactly once |
| `Bst.PostOrderContents` | index.js:145-150 | post-order (left, right, node) visits each node exactly once |
| `Bst.BstIffInOrderAscending` | index.js:110-122 | a tree satisfies the ordering invariant if and only if its in-order sequence is strictly ascending |
| `Bst.BuildInOrder` | index.js:156-166 | the in-order sequence of the tree built by bisection equals the input sequence, so order and element count are kept |
| `Bst.BuildShape` | index.js:156-166 | an empty input gives `null`; otherwise the root holds `array[floor(n/2)]`, the left subtree has `n/2` nodes and the right `n - n/2 - 1` |
| `Bst.BuildBalanced` | index.js:156-166 | at every node of a built tree the subtree sizes differ by at most one |
| `Bst.BuildBst` | index.js:156-166 | a built tree satisfies the ordering invariant if and only if the input is strictly ascending, and it holds exactly the input's values |
| `Bst.RawConstructorBreaksInvariant` | index.js:9-12 | building from the raw array `[2, 1]` gives root 1 with left child 2, which breaks the invariant; `[3, 3]` gives two nodes holding 3 |
| `Bst.InsertSorted` | index.js:10 | placing a value into an ascending sequence keeps it strictly ascending and adds exactly that value |
| `Bst.SortedUnique` | index.js:10 | the sorted, deduplicated copy is strictly ascending and has exactly the input's values |
| `Bst.BuildSortedUnique` | index.js:10-11 | building from the sorted, deduplicated copy gives a size-balanced tree that satisfies the ordering invariant and holds exactly the input's values |
| `Bst.InsertValues` | index.js:38-48 | the value set after `insert` is the old set plus `v`, for any tree |
| `Bst.InsertBst` | index.js:38-48 | `insert` into a search tree gives a search tree whose value set is the old set plus `v` |
| `Bst.InsertPresent` | index.js:42-47 | inserting a value that a search tree already holds returns the tree unchanged |
| `Bst.Min` | index.js:77-82 | the value reached by following left links is a value of the tree |
| `Bst.MinLeast` | index.js:77-82 | that value is the first of the in-order sequence, and in a search tree it is at most every value |
| `Bst.DeleteAbsent` | index.js:49-56 | deleting a value the tree does not hold returns the tree unchanged |
| `Bst.DeleteBst` | index.js:49-75 | `delete` on a search tree gives a search tree whose value set is the old set minus `v` |
| `Bst.SuccessorReplaces` | index.js:68-71 | with two children, moving the successor into the matching node and deleting it from the right subtree keeps the ordering invariant and removes exactly the deleted value |
| `Bst.DeleteAtMatch` | index.js:59-71 | at the matching node a leaf gives `null` and a node with one child gives that child; with two children the left subtree is kept, the new value is the in-order successor (a value of the right subtree that is the least value above the deleted one), and the right subtree loses exactly that successor |
| `Bst.DeleteUndoesInsert` | index.js:38-75 | deleting a value just inserted into a tree that lacked it gives back the original tree, shape included |
| `Bst.Find` | index.js:83-93 | a non-null result holds the searched value, and that value is in the tree |
| `Bst.FindBst` | index.js:83-93 | in a search tree `find` returns a node if and only if the value is in the tree |
| `Bst.InsertDiscardedValues` | index.js:38-41 | after `tree.insert(v)` on a search tree, `v` is present if and only if the tree was not empty, and the invariant holds |
| `Bst.DeleteDiscardedValues` | index.js:49-66 | after `tree.delete(v)` on a search tree, `v` is still present if and only if it sits at the root and the root has at most one child |
| `Bst.DiscardedRootExamples` | index.js:38-66 | inserting 1 into an empty tree leaves it empty; deleting 5 from the tree built from `[5]` leaves the node 5 in place |
| `Bst.BfsSplit` | index.js:102-108 | the queue visits every tree already queued before anything queued after it, and their children go behind |
| `Bst.ByLevels` | index.js:99-108 | level-order visits the roots of one level left to right and then the next level, so parents come before children and left before right |
| `Bst.LevelOrderContents` | index.js:99-108 | level-order visits each node exactly once |
| `Bst.BuildSeven` | index.js:168 | the tree built from `[1..7]` is complete, with root 4 and subtree roots 2 and 6 |
| `Bst.SevenLevelOrder` | index.js:94-108 | level-order on the tree built from `[1..7]` visits 4, 2, 6, 1, 3, 5, 7 |
| `BinarySearchTree.Node.constructor` | index.js:1-7 | a new node is a leaf holding the value, with both links `null` |
| `BinarySearchTree.Tree.constructor` | index.js:9-12 | the root is the tree built by bisection from the raw array |
| `BinarySearchTree.Tree.BuildTree` | index.js:156-166 | the freshly allocated nodes form a tree whose model is `Bst.Build` of the array; `null` exactly for the empty array |
| `BinarySearchTree.Tree.InsertAt` | index.js:38-48 | the in-place recursion returns `node` itself when it is not null, or a new leaf; the returned subtree's model is `Bst.Insert` of the old one, and only new nodes join the footprint |
| `BinarySearchTree.Tree.Insert` | index.js:38 | with the returned root dropped, the tree's model becomes `Bst.InsertDiscarded` of the old one |
| `BinarySearchTree.Tree.FindMin` | index.js:77-82 | the loop down the left links returns `Bst.Min` of the subtree |
| `BinarySearchTree.Tree.DeleteAt` | index.js:49-75 | the returned subtree's model is `Bst.Delete` of the old one; the result differs from `node` exactly when a leaf or one-child node matches, and then nothing was changed |
| `BinarySearchTree.Tree.ReplaceBySuccessor` | index.js:68-71 | the node with two children takes `findMin` of its right subtree as its value and that value is deleted below it; the node's model becomes `Bst.Delete` of the old one at the old value |
| `BinarySearchTree.Tree.Delete` | index.js:49 | with the returned root dropped, the tree's model becomes `Bst.DeleteDiscarded` of the old one |
| `BinarySearchTree.Tree.FindAt` | index.js:83-93 | the result is null or a node of the subtree holding the value; its model is `Bst.Find` of the subtree |
| `BinarySearchTree.Tree.Find` | index.js:83 | the search from the root returns the node whose model is `Bst.Find` of the tree |
| `BinarySearchTree.Tree.InOrderAt` | index.js:115-120 | the recursive walk over the nodes yields `Bst.InOrder` of the subtree |
| `BinarySearchTree.Tree.PreOrderAt` | index.js:130-135 | the recursive walk over the nodes yields `Bst.PreOrder` of the subtree |
| `BinarySearchTree.Tree.PostOrderAt` | index.js:145-150 | the recursive walk over the nodes yields `Bst.PostOrder` of the subtree |
| `BinarySearchTree.Tree.InOrderForEach` | index.js:110-123 | throws "A callback function is required" for a non-function; otherwise visits in in-order |
| `BinarySearchTree.Tree.PreOrderForEach` | index.js:125-138 | throws for a non-function; otherwise visits in pre-order |
| `BinarySearchTree.Tree.PostOrderForEach` | index.js:140-153 | throws for a non-function; otherwise visits in post-order |
| `BinarySearchTree.Tree.BfsStep` | index.js:103-107 | one turn of the queue loop visits the front node, queues its non-null children, and leaves less to visit |
| `BinarySearchTree.Tree.LevelOrderForEach` | index.js:94-109 | throws for a non-function; otherwise the queue loop visits exactly `Bst.LevelOrder` of the tree |

## Left out

- `prettyPrint` (index.js:22-37): it only writes box-drawing text to the console.
- The demo at index.js:168-169 builds `[1..7]` and prints it. The build appears as `Bst.BuildSeven`, and the printing is left out.
- The first `buildTree` (index.js:14-21): the second definition at index.js:156 overrides it, and both build the same shape. Whether a node is a `Node` instance or a plain object makes no difference to the behaviour, so both are `Node` here.
- Callbacks: a traversal records the value of each node it visits, in visit order. The source passes the node object to an arbitrary function whose side effects are not modelled. The `typeof callback !== "function"` check is the `Callback` argument, and the thrown error is the `Thrown` outcome.
- Values of other JavaScript types, and the `a - b` comparator of the unused sort: values are integers.
- The height of the call stack for the recursive operations on degenerate trees.

## Findings

| source | as written | input that shows it | evidently intended | confidence | as-written member | corrected member |
|---|---|---|---|---|---|---|
| index.js:10-11 | the tree is built from the raw `array`; the sorted, deduplicated `sortedArray` is never used | `new Tree([2, 1])` has root 1 with left child 2, so the ordering invariant fails; `new Tree([3, 3])` holds 3 twice | build from `sortedArray` | high, not executed | `Bst.RawConstructorBreaksInvariant` | `Bst.BuildSortedUnique` |
| index.js:38-41 | `tree.insert(v)` returns the new leaf for an empty tree, but the caller does not store it in `this.root` | `new Tree([])` then `insert(1)` leaves the root `null` | store the returned root in `this.root` | high, not executed | `Bst.InsertDiscardedValues` | `Bst.InsertBst` |
| index.js:49-66 | `tree.delete(v)` returns `null` or the only child when the root matches and has at most one child, but the caller does not store it | `new Tree([5])` then `delete(5)` leaves the node 5 | store the returned root in `this.root` | high, not executed | `Bst.DeleteDiscardedValues` | `Bst.DeleteBst` |
