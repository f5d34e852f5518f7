# Binary search tree (`bst.js`) in Dafny

This project models the `Tree` and `Node` classes of `bst.js`. The tree is an
unbalanced binary search tree of distinct integers, stored as `Node` objects
joined by `left`/`right` references. It is built balanced from an array, and
the model covers its operations:

- the constructor drops repeated values, sorts, and builds;
- `insert` is an iterative descent;
- `deleteItem` uses the recursive `removeNode` and the in-order successor;
- `find` and `depth` are iterative searches;
- the four traversals and `height`;
- `isBalanced` and its helper `checkBalanced`;
- `rebalance` rebuilds the tree from its in-order values.

The model keeps the source's imperative form.

- `Node` is a class with mutable `data`, `left` and `right`.
- `Tree` is a class with `sortedArray` and `root`. It also has two ghost fields:
  - `shape`, the finite unfolding of the nodes reachable from `root`, with the value each holds;
  - `Repr`, the set of those nodes.
- The object invariant `Valid()` says four things:
  - `shape` describes the heap (`Linked`);
  - no node occurs twice (`Owned`);
  - `root` is its root;
  - the abstract tree `Model()` satisfies the search-tree ordering.
- Operations that change the tree are methods; the queries are methods or functions. Each operation is proved against a pure specification in `BstSpec`:
  - `Build` is the middle-split construction;
  - `Inserted` is the insertion descent;
  - `Removed` is the recursive removal with the minimum of the right subtree;
  - `InOrderSeq`, `PreOrderSeq` and `PostOrderSeq` are the traversals;
  - `TreeHeight` is the height;
  - `Balanced` is the AVL criterion.
- The properties the source relies on are lemmas about those functions:
  - the ordering invariant is kept;
  - exactly the value is added or removed;
  - the build is balanced and has logarithmic height;
  - rebuilding keeps the in-order sequence.
- `levelOrder`'s queue is proved to visit the nodes generation by generation (`Levels`).
- Node identity is observable (`insert` returns a node, `depth` compares nodes), so insertion and removal are also stated node by node, on shapes (`ShapeEdits`):
  - an insertion keeps every old node, with its value and at its depth, and adds one leaf;
  - a removal drops exactly one node object, which is left as it was (value and references), and changes no other node's value, except the node that held the removed value when it has two children;
  - in that two-child case the node that leaves is the successor (the leftmost node of the right subtree), not the node that held the value; a reference to the successor node no longer reaches the tree, and `depth` gives it -1.

The modules follow the structure of the program:

| file | module | content |
|---|---|---|
| `sequences.dfy` | `Sequences` | the constructor's preparation of its input (first-occurrence filter, numeric sort) and ordering facts |
| `bst_spec.dfy` | `BstSpec` | the abstract tree, the specification functions and their properties |
| `linked_tree.dfy` | `LinkedTree` | `Node`, the ghost `Shape` unfolding, and the path (zipper) used by the insertion descent |
| `shape_edits.dfy` | `ShapeEdits` | insertion and removal stated node by node on shapes: which node objects stay, arrive or leave, at what depth, holding what value |
| `levels.dfy` | `Levels` | breadth-first order over a forest of shapes |
| `bst.dfy` | `Bst` | `#buildTree`, `getSuccessor`, `removeNode`, the recursive traversals, `height`, `checkBalanced`, and class `Tree` |

`sortedArray` is set by the constructor and never updated afterwards, as in the
source. After an insertion, a deletion or a rebalance it no longer describes
the tree, and every method's contract states that it is left unchanged.

## Model

| member | source | states |
|---|---|---|
| Sequences.Dedup | bst.js:13-14 | the result has no repeated value and holds exactly the values of the input |
| Sequences.Sort | bst.js:15 | the result is ascending and holds exactly the values of the input |
| Sequences.SortPermutes | bst.js:15 | the sorted array is a permutation of the input (same multiset) |
| Sequences.SortDistinctIsStrict | bst.js:13-15 | sorting an array without repeats gives a strictly ascending array |
| Sequences.SortedDistinct | bst.js:13-15 | the prepared array is strictly ascending and holds exactly the input's values |
| Sequences.StrictlyIncreasingUnique | bst.js:13-15 | two strictly ascending arrays with the same values are equal, so the prepared array is the unique ascending enumeration of the distinct inputs |
| LinkedTree.Node.constructor | bst.js:1-7 | a new node holds the given value and has no children |
| Bst.Tree.constructor | bst.js:11-17 | `sortedArray` is strictly ascending with exactly the input's values; the built tree is exactly `Build(sortedArray)`, the middle split of `sortedArray`; it is a valid BST whose in-order sequence is `sortedArray`, whose values are exactly the input's, which is balanced and whose height is floor(log2 n) for n distinct values |
| Bst.BuildTree | bst.js:19-30 | `#buildTree` allocates only new nodes, links them into an owned tree, and that tree is `Build(values)` |
| BstSpec.BuildInOrder | bst.js:19-30 | the in-order sequence of the built tree is the array it was built from |
| BstSpec.BuildIsBst | bst.js:19-30 | built from a strictly ascending array, the tree satisfies the BST ordering and holds exactly the array's values |
| BstSpec.BuildHeight | bst.js:24-28 | the built tree's height is floor(log2 n) for n values, -1 when empty |
| BstSpec.BuildBalanced | bst.js:24-28 | the middle split yields a height-balanced tree |
| BstSpec.BuildHeightLog | bst.js:24-28 | for n >= 1 values, the built tree's height h satisfies 2^h <= n < 2^(h+1) |
| Bst.Tree.Insert | bst.js:32-63 | an absent value becomes a new leaf that is returned, the model becomes `Inserted(old model, value)` and gains exactly that value; node for node the shape becomes `InsertedShape(old shape, value, leaf)`: every old node stays in the tree with its old value and at its old depth, and only the leaf is added; a present value returns null (for `undefined`) and changes nothing; the invariant is kept |
| Bst.Tree.AttachLeaf | bst.js:45-57 | at the end of the descent, a fresh leaf holding the value is linked on the empty side; the shape becomes `InsertedShape(old shape, value, leaf)`, the model becomes the insertion of the value, and no old node's value changes |
| Bst.Attach | bst.js:46-49 | the new node is linked as `left` or `right` of its parent on the side its value belongs to; the parent keeps its value and nothing else in the tree changes |
| ShapeEdits.PlugInserted | bst.js:40-61 | inserting into the whole tree is inserting into the subtree where the descent for the value stops |
| ShapeEdits.InsertedShapeAbs | bst.js:32-63 | the node-level insertion describes the abstract insertion `Inserted` |
| ShapeEdits.InsertedShapeKeepsDepth | bst.js:45-57 | inserting a new leaf keeps every old node in the tree at the depth it had and adds no node but the leaf |
| BstSpec.InsertedElems | bst.js:32-63 | insertion adds exactly the value to the set of values |
| BstSpec.InsertedBst | bst.js:32-63 | insertion keeps the BST ordering and adds exactly the value |
| BstSpec.InsertedPresent | bst.js:41-44 | inserting a value that is already present leaves the tree as it was |
| Bst.GetSuccessor | bst.js:67-73 | returns null when there is no right child; otherwise the leftmost node of the right subtree (`Leftmost`), which has no left child and holds the minimum of the right subtree |
| BstSpec.MinIsLeast | bst.js:67-73 | the leftmost value is in the tree and, in a BST, is its least value |
| Bst.RemoveNode | bst.js:75-92 | the returned root heads an owned, linked tree made only of nodes already present; node for node it is `RemovedShape(old shape, value)`, and its abstract value is `Removed(old tree, value)`; a node that leaves the tree is not written |
| ShapeEdits.RemovedShapeAbs | bst.js:75-92 | the node-level removal describes the abstract removal `Removed` |
| ShapeEdits.RemovedShapeAbsent | bst.js:75-79 | removing an absent value leaves every node where it was |
| ShapeEdits.RemovedShapeNodes | bst.js:75-92 | removal only drops nodes; it never adds one |
| ShapeEdits.RemovedShapeDropsOne | bst.js:75-92 | in a search tree, removing a present value drops exactly one node object |
| ShapeEdits.RemovedMinDropsLeftmost | bst.js:67-73 | removing the minimum of a search tree drops its leftmost node, which holds that minimum |
| ShapeEdits.RemovedTwoChildren | bst.js:86-89 | removing the value of a node with two children keeps that node, which takes the minimum of its right subtree, and drops the leftmost node of the right subtree, which held a larger value |
| ShapeEdits.RemovedMinKeepsData | bst.js:89 | removing the minimum of a search tree changes no node's value |
| ShapeEdits.RemovedShapeKeepsData | bst.js:75-92 | in a search tree, removal changes the value of no node except one that held the removed value |
| BstSpec.RemovedBst | bst.js:75-92 | removal keeps the BST ordering and takes out exactly the value |
| BstSpec.RemovedAbsent | bst.js:75-79 | removing a value that is not present leaves the tree as it was |
| BstSpec.RemovedInOrder | bst.js:75-92 | removal deletes the value from the in-order sequence and keeps the rest in order |
| Bst.Tree.DeleteItem | bst.js:65-94 | the model becomes `Removed(old model, value)`; the value is gone and no other value is; the in-order sequence loses only that value; node for node the shape becomes `RemovedShape(old shape, value)`; an absent value leaves the root, the shape and the node set as they were; a present value drops exactly one node object; no node that did not hold the value changes its value; the node that leaves the tree is left untouched; no node is added; the invariant is kept |
| Bst.Tree.Find | bst.js:96-105 | returns true exactly when the value is in the tree |
| Bst.Tree.LevelOrder | bst.js:107-120 | the empty tree visits nothing; otherwise the root comes first, the visit is generation by generation (`LevelsOf`), and every node of the tree is visited exactly once |
| Levels.BfsStep | bst.js:114-118 | one turn of the queue: the front tree's root is visited and its non-empty subtrees are queued behind the rest, left before right |
| Levels.BfsIsLevels | bst.js:113-119 | the queue discipline visits a forest generation by generation: all roots, then the forest of their children |
| Levels.BfsVisitsAll | bst.js:113-119 | the queue makes as many visits as there are nodes and visits exactly the forest's nodes |
| Levels.BfsOfTree | bst.js:113-119 | started with the root of an owned tree, the queue visits the root first and each node of the tree exactly once |
| Bst.InOrderNodes | bst.js:124-129 | the recursive in-order visit reaches exactly the nodes of the subtree, makes one visit per position of the shape, and the values visited form `InOrderSeq`; that no node is visited twice follows from ownership and is stated at `Bst.Tree.InOrder` |
| Bst.PreOrderNodes | bst.js:135-140 | the recursive pre-order visit reaches exactly the nodes of the subtree and their values form `PreOrderSeq` |
| Bst.PostOrderNodes | bst.js:146-151 | the recursive post-order visit reaches exactly the nodes of the subtree and their values form `PostOrderSeq` |
| Bst.Tree.InOrder | bst.js:122-131 | every node is visited exactly once, as many visits as the tree has values, and the values visited are the in-order sequence, strictly ascending |
| Bst.Tree.PreOrder | bst.js:133-142 | every node is visited exactly once, the root first; the values are the pre-order sequence, a permutation of the in-order one |
| Bst.Tree.PostOrder | bst.js:144-153 | every node is visited exactly once, the root last; the values are the post-order sequence, a permutation of the in-order one |
| BstSpec.BstIffInOrderIncreasing | bst.js:122-131 | a tree satisfies the BST ordering exactly when its in-order sequence is strictly ascending |
| BstSpec.TraversalsPermute | bst.js:133-153 | pre-order and post-order visit the same values as in-order, each as often |
| BstSpec.InOrderElems | bst.js:122-131 | the in-order sequence holds exactly the tree's values, one entry per node |
| Bst.Height | bst.js:155-160 | null has height -1; otherwise the height is one more than the larger child height (`TreeHeight`) |
| BstSpec.HeightBounds | bst.js:155-160 | a tree of n nodes and height h has h < n and n < 2^(h+1) |
| Bst.Tree.Depth | bst.js:162-179 | a node of the tree gets its edge distance from the root (0 for the root); null or a node object not in the tree gets -1, even one holding a value of the tree |
| Bst.CheckBalanced | bst.js:182-197 | returns -1 exactly when some subtree is unbalanced, otherwise the height plus one |
| Bst.Tree.IsBalanced | bst.js:181-201 | true exactly when every node's subtree heights differ by at most one |
| Bst.Tree.InOrderValues | bst.js:204-208 | the array `rebalance` collects is the in-order sequence of values, strictly ascending |
| BstSpec.RebuildFromInOrder | bst.js:203-211 | building from a BST's in-order sequence gives a balanced BST with the same in-order sequence and the same values |
| Bst.Tree.Rebalance | bst.js:203-211 | after the rebuild the tree is exactly `Build(old in-order sequence)`, made of new nodes; it is valid and balanced, with the same in-order sequence and values and height floor(log2 n) for n values; `sortedArray` is unchanged |

## Left out

- `prettyPrint`, the demonstration script at the end of the file and every `console.log`: they only produce output.
- The traversals' callbacks: each traversal returns the sequence of nodes in the order the callback would receive them. The `callback funciton not provided` throws are left out with the callbacks.
- JavaScript numbers: values are unbounded integers. `NaN`, fractions and `-0` are not modelled. The `a - b` comparator is taken as numeric order, which holds for integers.
- `Array.prototype.sort` is a library call. It is modelled by an insertion sort characterised only by its result: ascending, and a permutation of the input.
- Bst.Height: it takes a ghost `Shape` that unfolds the subtree below `node`. A node whose references do not form a finite tree is outside the model. The same holds for `Bst.CheckBalanced` and the recursive traversals.
- Bst.Tree.Insert: the `undefined` returned for a present value is modelled as `null`.
- Bst.Tree.Insert: the part after the descent, which links the new leaf, is a separate method (`AttachLeaf`, with `Attach` for the single field write), so the loop's invariant and the update are proved apart.
- Bst.Tree.Rebalance: the callback that pushes each node's `data` onto an array is modelled by the node sequence of `InOrder` mapped to its values (`InOrderValues`).
- Concurrency and aliasing from outside the tree: the model assumes no other code mutates the tree's nodes. Other code may hold them: `insert` returns a node and `depth` takes one.
