/** The `Tree` class of bst.js: an unbalanced binary search tree of distinct
    integers over linked `Node`s, built balanced from an array, updated by
    insertion and deletion, and rebuilt balanced on request. */
module Bst {
  import opened Sequences
  import opened BstSpec
  import opened LinkedTree
  import opened Levels
  import opened ShapeEdits

  /** `#buildTree`: the middle element becomes the root, the lower half the
      left subtree and the upper half the right subtree. All nodes are new. */
  method BuildTree(values: seq<int>) returns (root: Node?, ghost s: Shape)
    ensures RootOf(s) == root && Owned(s) && Linked(s) && fresh(Nodes(s))
    ensures Abs(s) == Build(values)
    ensures forall n :: n in Nodes(s) ==> allocated(n)
    decreases |values|
  {
    if |values| == 0 {
      return null, Leaf;
    }
    var mid := (|values| - 1) / 2;
    root := new Node(values[mid]);
    var left, right;
    ghost var ls, rs;
    left, ls := BuildTree(values[..mid]);
    assert root !in Nodes(ls) && fresh(Nodes(ls));
    label leftBuilt:
    root.left := left;
    right, rs := BuildTree(values[mid + 1..]);
    assert root !in Nodes(rs) && Nodes(ls) !! Nodes(rs) && fresh(Nodes(rs));
    label rightBuilt:
    root.right := right;
    LinkedStable@leftBuilt(ls);
    LinkedStable@rightBuilt(rs);
    s := Br(ls, root, values[mid], rs);
    assert fresh(Nodes(s));
    assert Abs(s) == Build(values) by {
      BuildStep(values);
    }
  }

  /** Hangs the new node `leaf` below `parent`, on the side its value
      belongs to, where that side is empty. */
  method Attach(parent: Node, leaf: Node, ghost path: Path, ghost sub: Shape) returns (ghost newSub: Shape)
    requires PathLinked(path, parent) && parent !in PathNodes(path) && leaf !in PathNodes(path)
    requires sub.Br? && sub.node == parent && Linked(sub) && Owned(sub) && leaf !in Nodes(sub)
    requires leaf.left == null && leaf.right == null && leaf.data != parent.data
    requires if leaf.data < parent.data then sub.l.Leaf? else sub.r.Leaf?
    modifies parent
    ensures PathLinked(path, parent) && Linked(newSub) && Owned(newSub) && RootOf(newSub) == parent
    ensures leaf.data == old(leaf.data) && leaf.left == null && leaf.right == null
    ensures Nodes(newSub) == Nodes(sub) + {leaf}
    ensures Abs(newSub) == Inserted(Abs(sub), leaf.data)
    ensures newSub == InsertedShape(sub, leaf.data, leaf) && parent.data == old(parent.data)
    ensures newSub == if leaf.data < parent.data
      then Br(Br(Leaf, leaf, leaf.data, Leaf), parent, sub.data, sub.r)
      else Br(sub.l, parent, sub.data, Br(Leaf, leaf, leaf.data, Leaf))
  {
    if leaf.data < parent.data {
      assert Linked(sub.r) && parent !in Nodes(sub.r);
      parent.left := leaf;
      newSub := Br(Br(Leaf, leaf, leaf.data, Leaf), parent, sub.data, sub.r);
    } else {
      assert Linked(sub.l) && parent !in Nodes(sub.l);
      parent.right := leaf;
      newSub := Br(sub.l, parent, sub.data, Br(Leaf, leaf, leaf.data, Leaf));
    }
  }

  /** `getSuccessor`: the leftmost node of the right subtree, or null when
      there is no right subtree. */
  method GetSuccessor(node: Node, ghost s: Shape) returns (successor: Node?)
    requires s.Br? && s.node == node && Linked(s)
    ensures node.right == null ==> successor == null
    ensures node.right != null ==>
      successor != null && successor in Nodes(s.r) && successor.left == null &&
      successor.data == Min(Abs(s.r))
    ensures node.right != null ==> successor == Leftmost(s.r)
  {
    successor := node.right;
    ghost var sub := s.r;
    while successor != null && successor.left != null
      invariant RootOf(sub) == successor && Linked(sub) && Nodes(sub) <= Nodes(s.r)
      invariant node.right != null ==> successor != null && Min(Abs(sub)) == Min(Abs(s.r))
      invariant node.right != null ==> Leftmost(sub) == Leftmost(s.r)
      decreases sub
    {
      successor, sub := successor.left, sub.l;
    }
    if successor != null {
      assert sub.l == Leaf && Abs(sub).left == Nil;
    }
  }

  /** `removeNode`: the recursive removal below `root`, which returns the new
      root of that subtree. Nodes are only relinked or overwritten, never
      allocated. */
  method RemoveNode(root: Node?, value: int, ghost s: Shape) returns (newRoot: Node?, ghost t: Shape)
    requires RootOf(s) == root && Owned(s) && Linked(s)
    modifies Nodes(s)
    ensures RootOf(t) == newRoot && Owned(t) && Linked(t) && Nodes(t) <= Nodes(s)
    ensures Abs(t) == Removed(Abs(s), value)
    ensures t == RemovedShape(s, value)
    ensures forall n :: n in Nodes(s) && n !in Nodes(t) ==> old(allocated(n)) && unchanged(n)
    decreases s
  {
    label start:
    if root == null {
      return null, Leaf;
    }
    NodesAllocated(s);
    assert root !in Nodes(s.l) && root !in Nodes(s.r) && Nodes(s.l) !! Nodes(s.r);
    if value < root.data {
      var left;
      ghost var lt;
      left, lt := RemoveNode(root.left, value, s.l);
      label removed:
      root.left := left;
      LinkedStable@removed(lt);
      LinkedStable@start(s.r);
      t := Br(lt, root, s.data, s.r);
    } else if value > root.data {
      var right;
      ghost var rt;
      right, rt := RemoveNode(root.right, value, s.r);
      label removed:
      root.right := right;
      LinkedStable@removed(rt);
      LinkedStable@start(s.l);
      t := Br(s.l, root, s.data, rt);
    } else {
      if root.left == null {
        return root.right, s.r;
      }
      if root.right == null {
        return root.left, s.l;
      }
      var successor := GetSuccessor(root, s);
      root.data := successor.data;
      var right;
      ghost var rt;
      label overwritten:
      LinkedStable@start(s.r);
      right, rt := RemoveNode(root.right, successor.data, s.r);
      label removed:
      root.right := right;
      LinkedStable@removed(rt);
      LinkedStable@start(s.l);
      t := Br(s.l, root, Min(Abs(s.r)), rt);
    }
    newRoot := root;
  }

  /** `inorderTraversal`: the nodes below `node` in the order the callback
      sees them; left subtree, node, right subtree. */
  function InOrderNodes(node: Node?, ghost s: Shape): (visited: seq<Node>)
    requires RootOf(s) == node && Linked(s)
    reads Nodes(s)
    ensures forall n :: n in visited ==> n in Nodes(s)
    ensures forall n :: n in Nodes(s) ==> n in visited
    ensures |visited| == Count(s)
    ensures Values(visited) == InOrderSeq(Abs(s))
    decreases s
  {
    if node == null then []
    else
      var here: Node := node;
      var left, right := InOrderNodes(node.left, s.l), InOrderNodes(node.right, s.r);
      ValuesAppend(left, [here]);
      ValuesAppend(left + [here], right);
      left + [here] + right
  }

  /** `preorderTraversal`: node, left subtree, right subtree. */
  function PreOrderNodes(node: Node?, ghost s: Shape): (visited: seq<Node>)
    requires RootOf(s) == node && Linked(s)
    reads Nodes(s)
    ensures forall n :: n in visited ==> n in Nodes(s)
    ensures forall n :: n in Nodes(s) ==> n in visited
    ensures |visited| == Count(s)
    ensures Values(visited) == PreOrderSeq(Abs(s))
    decreases s
  {
    if node == null then []
    else
      var here: Node := node;
      var left, right := PreOrderNodes(node.left, s.l), PreOrderNodes(node.right, s.r);
      ValuesAppend([here], left);
      ValuesAppend([here] + left, right);
      [here] + left + right
  }

  /** `postorderTraversal`: left subtree, right subtree, node. */
  function PostOrderNodes(node: Node?, ghost s: Shape): (visited: seq<Node>)
    requires RootOf(s) == node && Linked(s)
    reads Nodes(s)
    ensures forall n :: n in visited ==> n in Nodes(s)
    ensures forall n :: n in Nodes(s) ==> n in visited
    ensures |visited| == Count(s)
    ensures Values(visited) == PostOrderSeq(Abs(s))
    decreases s
  {
    if node == null then []
    else
      var here: Node := node;
      var left, right := PostOrderNodes(node.left, s.l), PostOrderNodes(node.right, s.r);
      ValuesAppend(left, right);
      ValuesAppend(left + right, [here]);
      left + right + [here]
  }

  /** `height`: the number of edges on the longest path down from `node`;
      -1 for null. */
  function Height(node: Node?, ghost s: Shape): (h: int)
    requires RootOf(s) == node && Linked(s)
    reads Nodes(s)
    ensures h == TreeHeight(Abs(s))
    decreases s
  {
    if node == null then -1
    else 1 + Max(Height(node.left, s.l), Height(node.right, s.r))
  }

  /** `checkBalanced`: 0 for null; -1 as soon as a subtree is unbalanced or
      the two subtree results differ by more than one; otherwise one more
      than the larger of the two. */
  function CheckBalanced(node: Node?, ghost s: Shape): (r: int)
    requires RootOf(s) == node && Linked(s)
    reads Nodes(s)
    ensures r == if Balanced(Abs(s)) then TreeHeight(Abs(s)) + 1 else -1
    decreases s
  {
    if node == null then 0
    else
      var leftHeight := CheckBalanced(node.left, s.l);
      var rightHeight := CheckBalanced(node.right, s.r);
      if leftHeight == -1 || rightHeight == -1 then -1
      else if (if leftHeight < rightHeight then rightHeight - leftHeight else leftHeight - rightHeight) > 1 then -1
      else Max(leftHeight, rightHeight) + 1
  }

  class Tree {
    var sortedArray: seq<int>
    var root: Node?
    /** The unfolding of the nodes reachable from `root`. */
    ghost var shape: Shape
    ghost var Repr: set<Node>

    /** The object invariant: `root` heads a finite, strictly owned linked
        tree whose values satisfy the BST ordering. */
    ghost predicate Valid()
      reads this, Repr
    {
      Repr == Nodes(shape) && root == RootOf(shape) && Owned(shape) && Linked(shape) && IsBST(Abs(shape))
    }

    ghost function Model(): BinTree
      reads this, Repr
      requires Valid()
    {
      Abs(shape)
    }

    /** The input is reduced to its distinct values, sorted, and built into a
        balanced tree whose in-order sequence is exactly that sorted values. */
    constructor (values: seq<int>)
      ensures Valid() && fresh(Repr)
      ensures StrictlyIncreasing(sortedArray)
      ensures forall x :: x in sortedArray <==> x in values
      ensures InOrderSeq(Model()) == sortedArray
      ensures forall x :: x in Elems(Model()) <==> x in values
      ensures Balanced(Model())
      ensures Model() == Build(sortedArray)
      ensures TreeHeight(Model()) == Log2Floor(|sortedArray|)
    {
      var sorted := SortedDistinct(values);
      var r;
      ghost var s;
      r, s := BuildTree(sorted);
      sortedArray := sorted;
      root := r;
      shape := s;
      Repr := Nodes(s);
      BuildIsBst(sorted);
      BuildBalanced(sorted);
      BuildHeight(sorted);
    }

    /** `find`: the iterative BST search. */
    method Find(value: int) returns (found: bool)
      requires Valid()
      ensures found <==> value in Elems(Model())
    {
      if root == null {
        return false;
      }
      var current := root;
      ghost var sub := shape;
      while current != null
        invariant RootOf(sub) == current && Linked(sub) && IsBST(Abs(sub))
        invariant value in Elems(Model()) <==> value in Elems(Abs(sub))
        decreases sub
      {
        if value == current.data {
          return true;
        } else if value < current.data {
          current, sub := current.left, sub.l;
        } else {
          current, sub := current.right, sub.r;
        }
      }
      return false;
    }

    /** `depth`: descends from the root guided by the target's value and
        stops when it meets the very same node object. */
    method Depth(node: Node?) returns (depth: int)
      requires Valid()
      ensures node != null && node in Nodes(shape) ==> depth == DepthIn(shape, node)
      ensures node == null || node !in Nodes(shape) ==> depth == -1
      // a corollary of the first clause, stated for the reader
      ensures node != null && node == root ==> depth == 0
    {
      if node == null || root == null {
        return -1;
      }
      var current := root;
      depth := 0;
      ghost var sub := shape;
      while current != null
        invariant RootOf(sub) == current && Linked(sub) && IsBST(Abs(sub))
        invariant Nodes(sub) <= Nodes(shape) && depth >= 0
        invariant node in Nodes(shape) ==> node in Nodes(sub) && DepthIn(shape, node) == depth + DepthIn(sub, node)
        decreases sub
      {
        if node == current {
          return depth;
        }
        if node in Nodes(sub.l) {
          NodeDataInElems(sub.l, node);
        }
        if node in Nodes(sub.r) {
          NodeDataInElems(sub.r, node);
        }
        if node.data < current.data {
          current, sub := current.left, sub.l;
        } else {
          current, sub := current.right, sub.r;
        }
        depth := depth + 1;
      }
      return -1;
    }

    /** `insert`: the iterative descent. An absent value is attached as a new
        leaf, which is returned; a present value leaves everything as it was. */
    method Insert(value: int) returns (inserted: Node?)
      requires Valid()
      modifies this, Repr
      ensures Valid() && sortedArray == old(sortedArray)
      ensures Model() == Inserted(old(Model()), value)
      ensures Elems(Model()) == old(Elems(Model())) + {value}
      ensures value in old(Elems(Model())) ==>
        inserted == null && unchanged(this) && unchanged(Repr)
      ensures value !in old(Elems(Model())) ==>
        inserted != null && fresh(inserted) && inserted in Nodes(shape) &&
        inserted.data == value && inserted.left == null && inserted.right == null &&
        Repr == old(Repr) + {inserted}
      ensures value !in old(Elems(Model())) ==> shape == InsertedShape(old(shape), value, inserted)
      ensures forall n :: n in old(Repr) ==> n.data == old(n.data)
      ensures forall n :: n in old(Repr) ==> n in Repr && DepthIn(shape, n) == old(DepthIn(shape, n))
    {
      InsertedBst(Model(), value);
      var current := root;
      if current == null {
        root := new Node(value);
        shape := Br(Leaf, root, value, Leaf);
        Repr := Nodes(shape);
        return root;
      }
      ghost var m0, s0 := Model(), shape;
      ghost var sub, path := shape, Top;
      while true
        invariant sub.Br? && sub.node == current && Plug(path, sub) == shape
        invariant Linked(sub) && IsBST(Abs(sub))
        invariant value in Elems(m0) <==> value in Elems(Abs(sub))
        invariant OnDescent(path, value)
        decreases sub
      {
        if current.data == value {
          InsertedPresent(m0, value);
          return null;
        }
        var next := if value < current.data then current.left else current.right;
        if next == null {
          break;
        }
        if value < current.data {
          current, sub, path := next, sub.l, WentLeft(path, current, sub.data, sub.r);
        } else {
          current, sub, path := next, sub.r, WentRight(path, sub.l, current, sub.data);
        }
      }
      inserted := AttachLeaf(current, value, path, sub);
      InsertedShapeKeepsDepth(s0, value, inserted);
    }

    /** The end of `insert`'s descent: `value` is absent and belongs on the
        empty side of `parent`, which sits at the end of `path`. A new leaf
        holding `value` is linked there. */
    method AttachLeaf(parent: Node, value: int, ghost path: Path, ghost sub: Shape) returns (inserted: Node)
      requires Valid() && Plug(path, sub) == shape && sub.Br? && sub.node == parent
      requires value !in Elems(Model()) && value != parent.data
      requires if value < parent.data then parent.left == null else parent.right == null
      requires IsBST(Inserted(Model(), value))
      requires OnDescent(path, value)
      modifies this, Repr
      ensures Valid() && sortedArray == old(sortedArray)
      ensures Model() == Inserted(old(Model()), value)
      ensures fresh(inserted) && inserted in Nodes(shape)
      ensures inserted.data == value && inserted.left == null && inserted.right == null
      ensures Repr == old(Repr) + {inserted}
      ensures shape == InsertedShape(old(shape), value, inserted)
      ensures forall n :: n in old(Repr) ==> n.data == old(n.data)
    {
      ghost var s0 := shape;
      PlugSplit(path, sub);
      inserted := new Node(value);
      PlugInserted(path, sub, value, inserted);
      ghost var newSub := Attach(parent, inserted, path, sub);
      InsertedShapeAbs(s0, value, inserted);
      PlugLinked(path, newSub);
      PlugGrow(path, sub, newSub, inserted);
      Install(root, Plug(path, newSub));
    }

    /** `deleteItem`: the root is replaced by what `removeNode` returns. */
    method DeleteItem(value: int)
      requires Valid()
      modifies this, Repr
      ensures Valid() && sortedArray == old(sortedArray) && Repr <= old(Repr)
      ensures Model() == Removed(old(Model()), value)
      ensures Elems(Model()) == old(Elems(Model())) - {value}
      ensures InOrderSeq(Model()) == Filter(old(InOrderSeq(Model())), value)
      // a corollary of the two clauses above, stated for the reader
      ensures value !in old(Elems(Model())) ==> Model() == old(Model())
      ensures shape == RemovedShape(old(shape), value)
      ensures value !in old(Elems(Model())) ==>
        shape == old(shape) && root == old(root) && Repr == old(Repr)
      ensures value in old(Elems(Model())) ==>
        exists gone :: gone in old(Repr) && Repr == old(Repr) - {gone}
      ensures forall n :: n in Repr && old(n.data) != value ==> n.data == old(n.data)
      ensures forall n :: n in old(Repr) && n !in Repr ==> unchanged(n)
    {
      ghost var m0, s0 := Model(), shape;
      RemovedBst(m0, value);
      RemovedInOrder(m0, value);
      if value !in Elems(m0) {
        RemovedAbsent(m0, value);
        RemovedShapeAbsent(s0, value);
      } else {
        RemovedShapeDropsOne(s0, value);
      }
      RemovedShapeKeepsData(s0, value);
      LinkedData(s0);
      var r;
      ghost var t;
      r, t := RemoveNode(root, value, shape);
      Install(r, t);
      LinkedData(t);
    }

    /** `inOrder`: the nodes in the order the callback sees them: every node
        once, values ascending. */
    function InOrder(): (visited: seq<Node>)
      reads this, Repr
      requires Valid()
      ensures forall n :: n in visited ==> n in Repr
      ensures forall n :: n in Repr ==> n in visited
      ensures forall i, j :: 0 <= i < j < |visited| ==> visited[i] != visited[j]
      ensures Values(visited) == InOrderSeq(Model())
      ensures StrictlyIncreasing(Values(visited))
      ensures |visited| == |Repr| == Size(Model())
    {
      var visited := InOrderNodes(root, shape);
      CountOwned(shape);
      CountSize(shape);
      EnumerationIsDistinct(visited, Repr);
      BstIffInOrderIncreasing(Model());
      visited
    }

    /** `preOrder`: every node once, the root first, holding the same values
        as the in-order visit. */
    function PreOrder(): (visited: seq<Node>)
      reads this, Repr
      requires Valid()
      ensures forall n :: n in visited ==> n in Repr
      ensures forall n :: n in Repr ==> n in visited
      ensures forall i, j :: 0 <= i < j < |visited| ==> visited[i] != visited[j]
      ensures Values(visited) == PreOrderSeq(Model())
      ensures multiset(Values(visited)) == multiset(InOrderSeq(Model()))
      ensures root != null ==> visited != [] && visited[0] == root
    {
      var visited := PreOrderNodes(root, shape);
      CountOwned(shape);
      EnumerationIsDistinct(visited, Repr);
      TraversalsPermute(Model());
      visited
    }

    /** `postOrder`: every node once, the root last, holding the same values
        as the in-order visit. */
    function PostOrder(): (visited: seq<Node>)
      reads this, Repr
      requires Valid()
      ensures forall n :: n in visited ==> n in Repr
      ensures forall n :: n in Repr ==> n in visited
      ensures forall i, j :: 0 <= i < j < |visited| ==> visited[i] != visited[j]
      ensures Values(visited) == PostOrderSeq(Model())
      ensures multiset(Values(visited)) == multiset(InOrderSeq(Model()))
      ensures root != null ==> visited != [] && visited[|visited| - 1] == root
    {
      var visited := PostOrderNodes(root, shape);
      CountOwned(shape);
      EnumerationIsDistinct(visited, Repr);
      TraversalsPermute(Model());
      visited
    }

    /** The values pushed by `rebalance`'s in-order callback, in that order. */
    function InOrderValues(): (values: seq<int>)
      reads this, Repr
      requires Valid()
      ensures values == InOrderSeq(Model()) && StrictlyIncreasing(values)
    {
      Values(InOrder())
    }

    /** `isBalanced`: whether every node's subtree heights differ by at most one. */
    function IsBalanced(): (b: bool)
      reads this, Repr
      requires Valid()
      ensures b <==> Balanced(Model())
    {
      CheckBalanced(root, shape) != -1
    }

    /** `levelOrder`: a queue of nodes, starting with the root; the front
        node is visited and its non-null children are queued behind. */
    method LevelOrder() returns (visited: seq<Node>)
      requires Valid()
      ensures root == null ==> visited == []
      ensures root != null ==> visited == LevelsOf([shape]) && visited[0] == root
      ensures forall n :: n in visited <==> n in Repr
      ensures forall i, j :: 0 <= i < j < |visited| ==> visited[i] != visited[j]
    {
      visited := [];
      if root == null {
        return;
      }
      var queue := [root];
      ghost var forest := [shape];
      assert AllBr(forest) && queue == Roots(forest);
      while queue != []
        invariant AllBr(forest) && queue == Roots(forest)
        invariant forall t :: t in forest ==> Linked(t)
        invariant visited + Bfs(forest) == Bfs([shape])
        decreases ForestCount(forest)
      {
        var node := queue[0];
        ghost var head := forest[0];
        assert head in forest;
        BfsStep(forest);
        assert node == head.node;
        AppendAssoc(visited, [node], Bfs(forest[1..] + Kids(head)));
        queue := queue[1..];
        visited := visited + [node];
        if node.left != null {
          queue := queue + [node.left];
        }
        if node.right != null {
          queue := queue + [node.right];
        }
        forest := forest[1..] + Kids(head);
      }
      assert visited == Bfs([shape]);
      BfsOfTree(shape);
    }

    /** `rebalance`: the in-order visit pushes each node's value onto an
        array, and the tree is rebuilt from that array by `#buildTree`. */
    method Rebalance()
      requires Valid()
      modifies this
      ensures Valid() && fresh(Repr) && sortedArray == old(sortedArray)
      ensures InOrderSeq(Model()) == old(InOrderSeq(Model()))
      ensures Elems(Model()) == old(Elems(Model()))
      ensures Balanced(Model())
      ensures Model() == Build(old(InOrderSeq(Model())))
      ensures TreeHeight(Model()) == Log2Floor(old(Size(Model())))
    {
      ghost var m0 := Model();
      var values := InOrderValues();
      RebuildFromInOrder(m0);
      InOrderElems(m0);
      BuildHeight(values);
      var r;
      ghost var s;
      r, s := BuildTree(values);
      Install(r, s);
    }

    /** Makes a freshly built linked tree the contents of this tree. */
    method Install(r: Node?, ghost s: Shape)
      requires RootOf(s) == r && Owned(s) && Linked(s) && IsBST(Abs(s))
      modifies this
      ensures Valid() && root == r && shape == s && Repr == Nodes(s)
      ensures sortedArray == old(sortedArray)
    {
      NodesAllocated(s);
      label before:
      root := r;
      shape := s;
      Repr := Nodes(s);
      LinkedStable@before(s);
    }
  }
}
