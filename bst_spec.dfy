/** The abstract value of a binary search tree: a plain algebraic tree of
    integers, the specification functions the linked implementation is
    proved against, and the properties those functions have. */
module BstSpec {
  import opened Sequences

  datatype BinTree = Nil | Branch(left: BinTree, data: int, right: BinTree)

  function Elems(t: BinTree): set<int> {
    match t
    case Nil => {}
    case Branch(l, d, r) => Elems(l) + {d} + Elems(r)
  }

  function Size(t: BinTree): nat {
    match t
    case Nil => 0
    case Branch(l, _, r) => Size(l) + 1 + Size(r)
  }

  function InOrderSeq(t: BinTree): seq<int> {
    match t
    case Nil => []
    case Branch(l, d, r) => InOrderSeq(l) + [d] + InOrderSeq(r)
  }

  function PreOrderSeq(t: BinTree): seq<int> {
    match t
    case Nil => []
    case Branch(l, d, r) => [d] + PreOrderSeq(l) + PreOrderSeq(r)
  }

  function PostOrderSeq(t: BinTree): seq<int> {
    match t
    case Nil => []
    case Branch(l, d, r) => PostOrderSeq(l) + PostOrderSeq(r) + [d]
  }

  /** Every value in a left subtree is smaller, and every value in a right
      subtree larger, than the value at the node: values are distinct. */
  ghost predicate IsBST(t: BinTree) {
    match t
    case Nil => true
    case Branch(l, d, r) =>
      IsBST(l) && IsBST(r) &&
      (forall x :: x in Elems(l) ==> x < d) &&
      (forall x :: x in Elems(r) ==> d < x)
  }

  function Max(a: int, b: int): int {
    if a < b then b else a
  }

  /** Edges on the longest downward path; the empty tree has height -1. */
  function TreeHeight(t: BinTree): (h: int)
    ensures h >= -1 && (h == -1 <==> t == Nil)
  {
    match t
    case Nil => -1
    case Branch(l, _, r) => 1 + Max(TreeHeight(l), TreeHeight(r))
  }

  /** The AVL criterion: at every node the two subtree heights differ by at most one. */
  ghost predicate Balanced(t: BinTree) {
    match t
    case Nil => true
    case Branch(l, _, r) =>
      Balanced(l) && Balanced(r) && -1 <= TreeHeight(l) - TreeHeight(r) <= 1
  }

  /** The tree built from an array by splitting at the middle index
      `floor((start + end) / 2)`; the lower half goes left. */
  function Build(a: seq<int>): BinTree
    decreases |a|
  {
    if |a| == 0 then Nil
    else
      var mid := (|a| - 1) / 2;
      Branch(Build(a[..mid]), a[mid], Build(a[mid + 1..]))
  }

  /** The insertion descent: a value already met on the way is left alone,
      otherwise it becomes a new leaf where the descent falls off the tree. */
  function Inserted(t: BinTree, v: int): BinTree {
    match t
    case Nil => Branch(Nil, v, Nil)
    case Branch(l, d, r) =>
      if d == v then t
      else if v < d then Branch(Inserted(l, v), d, r)
      else Branch(l, d, Inserted(r, v))
  }

  /** The value of the leftmost node. */
  function Min(t: BinTree): int
    requires t != Nil
  {
    if t.left == Nil then t.data else Min(t.left)
  }

  /** The recursive removal: a node with at most one child is replaced by
      that child; a node with two children takes the minimum of its right
      subtree, which is then removed from the right subtree. */
  function Removed(t: BinTree, v: int): BinTree {
    match t
    case Nil => Nil
    case Branch(l, d, r) =>
      if v < d then Branch(Removed(l, v), d, r)
      else if v > d then Branch(l, d, Removed(r, v))
      else if l == Nil then r
      else if r == Nil then l
      else Branch(l, Min(r), Removed(r, Min(r)))
  }

  // ---------------------------------------------------------------------
  // Traversals and the ordering invariant

  lemma {:induction false} InOrderElems(t: BinTree)
    ensures forall x :: x in InOrderSeq(t) <==> x in Elems(t)
    ensures |InOrderSeq(t)| == Size(t)
  {
    match t
    case Nil =>
    case Branch(l, d, r) =>
      InOrderElems(l);
      InOrderElems(r);
  }

  /** The ordering invariant holds exactly when the in-order sequence is strictly ascending. */
  lemma {:induction false} BstIffInOrderIncreasing(t: BinTree)
    ensures IsBST(t) <==> StrictlyIncreasing(InOrderSeq(t))
  {
    match t
    case Nil =>
    case Branch(l, d, r) =>
      BstIffInOrderIncreasing(l);
      BstIffInOrderIncreasing(r);
      InOrderElems(l);
      InOrderElems(r);
      StrictlyIncreasingAround(InOrderSeq(l), d, InOrderSeq(r));
  }

  /** The three depth-first orders visit the same values, each as often. */
  lemma {:induction false} TraversalsPermute(t: BinTree)
    ensures multiset(PreOrderSeq(t)) == multiset(InOrderSeq(t))
    ensures multiset(PostOrderSeq(t)) == multiset(InOrderSeq(t))
  {
    match t
    case Nil =>
    case Branch(l, d, r) =>
      TraversalsPermute(l);
      TraversalsPermute(r);
  }

  // ---------------------------------------------------------------------
  // Construction

  /** One step of the construction: the middle value over the trees built
      from the two halves. */
  lemma BuildStep(a: seq<int>)
    requires |a| > 0
    ensures Build(a) == Branch(Build(a[..(|a| - 1) / 2]), a[(|a| - 1) / 2], Build(a[(|a| - 1) / 2 + 1..]))
  {
  }

  lemma SplitAt(a: seq<int>, i: int)
    requires 0 <= i < |a|
    ensures a == a[..i] + [a[i]] + a[i + 1..]
  {
  }

  lemma {:induction false} BuildInOrder(a: seq<int>)
    ensures InOrderSeq(Build(a)) == a
    decreases |a|
  {
    if |a| > 0 {
      var mid := (|a| - 1) / 2;
      BuildInOrder(a[..mid]);
      BuildInOrder(a[mid + 1..]);
      SplitAt(a, mid);
    }
  }

  /** Built from a strictly ascending array, the tree is a BST over exactly that array. */
  lemma {:induction false} BuildIsBst(a: seq<int>)
    requires StrictlyIncreasing(a)
    ensures IsBST(Build(a)) && InOrderSeq(Build(a)) == a
    ensures forall x :: x in Elems(Build(a)) <==> x in a
  {
    BuildInOrder(a);
    BstIffInOrderIncreasing(Build(a));
    InOrderElems(Build(a));
  }

  /** floor(log2 n) for n >= 1, and -1 for the empty case. */
  function Log2Floor(n: nat): (r: int)
    ensures n == 0 <==> r == -1
    ensures r >= -1
  {
    if n == 0 then -1 else if n == 1 then 0 else 1 + Log2Floor(n / 2)
  }

  function Pow2(k: nat): nat {
    if k == 0 then 1 else 2 * Pow2(k - 1)
  }

  lemma {:induction false} Log2FloorMonotone(m: nat, n: nat)
    requires m <= n
    ensures Log2Floor(m) <= Log2Floor(n)
    decreases n
  {
    if m >= 2 {
      Log2FloorMonotone(m / 2, n / 2);
    }
  }

  lemma {:induction false} Log2FloorStep(n: nat)
    ensures Log2Floor(n + 1) <= Log2Floor(n) + 1
    decreases n
  {
    if n >= 2 {
      if n % 2 == 1 {
        Log2FloorStep(n / 2);
      }
    }
  }

  lemma {:induction false} Log2FloorBounds(n: nat)
    requires n >= 1
    ensures Log2Floor(n) >= 0
    ensures Pow2(Log2Floor(n)) <= n < Pow2(Log2Floor(n) + 1)
    decreases n
  {
    if n >= 2 {
      Log2FloorBounds(n / 2);
    }
  }

  /** The two halves of a split differ in size by at most one, so their
      floor-logarithms differ by at most one. */
  lemma Log2FloorClose(m: nat, k: nat)
    requires m <= k <= m + 1
    ensures Log2Floor(m) <= Log2Floor(k) <= Log2Floor(m) + 1
  {
    Log2FloorMonotone(m, k);
    Log2FloorStep(m);
    Log2FloorMonotone(k, m + 1);
  }

  /** The built tree has the least height any binary tree on |a| nodes can have. */
  lemma {:induction false} BuildHeight(a: seq<int>)
    ensures TreeHeight(Build(a)) == Log2Floor(|a|)
    decreases |a|
  {
    if |a| > 0 {
      var n, mid := |a|, (|a| - 1) / 2;
      var lo, hi := a[..mid], a[mid + 1..];
      BuildHeight(lo);
      BuildHeight(hi);
      assert |lo| == mid && |hi| == n / 2;
      Log2FloorClose(mid, n / 2);
      assert Build(a) == Branch(Build(lo), a[mid], Build(hi));
    }
  }

  /** Splitting at the middle keeps the tree height-balanced. */
  lemma {:induction false} BuildBalanced(a: seq<int>)
    ensures Balanced(Build(a))
    decreases |a|
  {
    if |a| > 0 {
      var n, mid := |a|, (|a| - 1) / 2;
      var lo, hi := a[..mid], a[mid + 1..];
      BuildBalanced(lo);
      BuildBalanced(hi);
      BuildHeight(lo);
      BuildHeight(hi);
      assert |lo| == mid && |hi| == n / 2;
      Log2FloorClose(mid, n / 2);
      assert Build(a) == Branch(Build(lo), a[mid], Build(hi));
    }
  }

  /** The built tree's height h satisfies 2^h <= n < 2^(h+1) for n values. */
  lemma BuildHeightLog(a: seq<int>)
    requires |a| > 0
    ensures var h := TreeHeight(Build(a)); h >= 0 && Pow2(h) <= |a| < Pow2(h + 1)
  {
    BuildHeight(a);
    Log2FloorBounds(|a|);
  }

  lemma {:induction false} Pow2Monotone(i: nat, j: nat)
    requires i <= j
    ensures Pow2(i) <= Pow2(j)
    decreases j
  {
    if i < j {
      Pow2Monotone(i, j - 1);
    }
  }

  /** Any tree with n nodes has height at most n - 1 and fewer than 2^(h+1)
      nodes for height h; the built tree reaches the lower bound. */
  lemma {:induction false} HeightBounds(t: BinTree)
    ensures TreeHeight(t) < Size(t)
    ensures Size(t) < Pow2(TreeHeight(t) + 1)
  {
    match t
    case Nil =>
    case Branch(l, _, r) =>
      HeightBounds(l);
      HeightBounds(r);
      var h := TreeHeight(t);
      Pow2Monotone(TreeHeight(l) + 1, h);
      Pow2Monotone(TreeHeight(r) + 1, h);
  }

  /** Rebuilding a search tree from its in-order sequence gives a balanced
      search tree with the same in-order sequence and the same values. */
  lemma RebuildFromInOrder(t: BinTree)
    requires IsBST(t)
    ensures IsBST(Build(InOrderSeq(t))) && Balanced(Build(InOrderSeq(t)))
    ensures InOrderSeq(Build(InOrderSeq(t))) == InOrderSeq(t)
    ensures Elems(Build(InOrderSeq(t))) == Elems(t)
  {
    var values := InOrderSeq(t);
    BstIffInOrderIncreasing(t);
    BuildIsBst(values);
    BuildBalanced(values);
    InOrderElems(t);
    var b := Build(values);
    forall x
      ensures x in Elems(b) <==> x in Elems(t)
    {
      assert x in Elems(b) <==> x in values;
      assert x in values <==> x in Elems(t);
    }
  }

  // ---------------------------------------------------------------------
  // Insertion

  lemma {:induction false} InsertedElems(t: BinTree, v: int)
    ensures Elems(Inserted(t, v)) == Elems(t) + {v}
  {
    match t
    case Nil =>
    case Branch(l, d, r) =>
      InsertedElems(l, v);
      InsertedElems(r, v);
  }

  /** Insertion keeps the ordering invariant and adds exactly the value. */
  lemma {:induction false} InsertedBst(t: BinTree, v: int)
    requires IsBST(t)
    ensures IsBST(Inserted(t, v))
    ensures Elems(Inserted(t, v)) == Elems(t) + {v}
  {
    InsertedElems(t, v);
    match t
    case Nil =>
    case Branch(l, d, r) =>
      InsertedBst(l, v);
      InsertedBst(r, v);
  }

  /** Inserting a value that is already present changes nothing. */
  lemma {:induction false} InsertedPresent(t: BinTree, v: int)
    requires IsBST(t) && v in Elems(t)
    ensures Inserted(t, v) == t
  {
    match t
    case Branch(l, d, r) =>
      if v < d {
        InsertedPresent(l, v);
      } else if v > d {
        InsertedPresent(r, v);
      }
  }

  // ---------------------------------------------------------------------
  // Removal

  /** The leftmost value is the smallest value of a BST. */
  lemma {:induction false} MinIsLeast(t: BinTree)
    requires t != Nil
    ensures Min(t) in Elems(t)
    ensures IsBST(t) ==> forall x :: x in Elems(t) ==> Min(t) <= x
  {
    if t.left != Nil {
      MinIsLeast(t.left);
    }
  }

  /** Removing a value that is not present changes nothing. */
  lemma {:induction false} RemovedAbsent(t: BinTree, v: int)
    requires v !in Elems(t)
    ensures Removed(t, v) == t
  {
    match t
    case Nil =>
    case Branch(l, d, r) =>
      RemovedAbsent(l, v);
      RemovedAbsent(r, v);
  }

  /** Removal keeps the ordering invariant and takes out exactly the value. */
  lemma {:induction false} RemovedBst(t: BinTree, v: int)
    requires IsBST(t)
    ensures IsBST(Removed(t, v))
    ensures Elems(Removed(t, v)) == Elems(t) - {v}
  {
    match t
    case Nil =>
    case Branch(l, d, r) =>
      if v < d {
        RemovedBst(l, v);
      } else if v > d {
        RemovedBst(r, v);
      } else if l != Nil && r != Nil {
        var m := Min(r);
        MinIsLeast(r);
        RemovedBst(r, m);
      }
  }

  /** Removal takes the value out of the in-order sequence and keeps the rest in order. */
  lemma RemovedInOrder(t: BinTree, v: int)
    requires IsBST(t)
    ensures InOrderSeq(Removed(t, v)) == Filter(InOrderSeq(t), v)
  {
    RemovedBst(t, v);
    BstIffInOrderIncreasing(t);
    BstIffInOrderIncreasing(Removed(t, v));
    InOrderElems(t);
    InOrderElems(Removed(t, v));
    FilterIncreasing(InOrderSeq(t), v);
    StrictlyIncreasingUnique(InOrderSeq(Removed(t, v)), Filter(InOrderSeq(t), v));
  }

  /** The sequence without the occurrences of `v`. */
  function Filter(s: seq<int>, v: int): (r: seq<int>)
    ensures forall x :: x in r <==> x in s && x != v
  {
    if s == [] then []
    else
      assert s == [s[0]] + s[1..];
      (if s[0] == v then [] else [s[0]]) + Filter(s[1..], v)
  }

  lemma {:induction false} FilterIncreasing(s: seq<int>, v: int)
    requires StrictlyIncreasing(s)
    ensures StrictlyIncreasing(Filter(s, v))
  {
    if s != [] {
      FilterIncreasing(s[1..], v);
      var rest := Filter(s[1..], v);
      if s[0] != v {
        assert forall i :: 0 <= i < |rest| ==> rest[i] in rest && rest[i] in s[1..];
        assert forall x :: x in s[1..] ==> s[0] < x;
        StrictlyIncreasingAround([], s[0], rest);
      }
    }
  }
}
