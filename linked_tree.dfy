/** The linked representation: `Node` objects joined by `left`/`right`
    references. A `Shape` is a finite unfolding of those references, naming
    the node and the value it holds at every position; it is ghost
    bookkeeping that lets the verifier speak about the part of the heap a
    tree occupies. */
module LinkedTree {
  import opened BstSpec

  /** A tree vertex; a new node has no children. */
  class Node {
    var data: int
    var left: Node?
    var right: Node?

    constructor (data: int)
      ensures this.data == data && left == null && right == null
    {
      this.data := data;
      left := null;
      right := null;
    }
  }

  datatype Shape = Leaf | Br(l: Shape, node: Node, data: int, r: Shape)

  ghost function Nodes(s: Shape): set<Node> {
    match s
    case Leaf => {}
    case Br(l, n, _, r) => Nodes(l) + {n} + Nodes(r)
  }

  ghost function RootOf(s: Shape): Node? {
    if s.Leaf? then null else s.node
  }

  ghost function Count(s: Shape): nat {
    match s
    case Leaf => 0
    case Br(l, _, _, r) => Count(l) + 1 + Count(r)
  }

  /** Strict tree-shaped ownership: no node is reachable along two paths. */
  ghost predicate Owned(s: Shape) {
    match s
    case Leaf => true
    case Br(l, n, _, r) =>
      Owned(l) && Owned(r) && n !in Nodes(l) && n !in Nodes(r) && Nodes(l) !! Nodes(r)
  }

  /** The heap holds what the shape describes: every node's value and its
      `left`/`right` references. */
  ghost predicate Linked(s: Shape)
    reads Nodes(s)
  {
    match s
    case Leaf => true
    case Br(l, n, d, r) =>
      n.data == d && n.left == RootOf(l) && n.right == RootOf(r) && Linked(l) && Linked(r)
  }

  /** The abstract value described by a shape. */
  ghost function Abs(s: Shape): BinTree {
    match s
    case Leaf => Nil
    case Br(l, _, d, r) => Branch(Abs(l), d, Abs(r))
  }

  /** The values held by a sequence of nodes, in order. */
  function Values(ns: seq<Node>): (r: seq<int>)
    reads ns
    ensures |r| == |ns|
    ensures forall i :: 0 <= i < |ns| ==> r[i] == ns[i].data
  {
    if ns == [] then [] else [ns[0].data] + Values(ns[1..])
  }

  lemma {:induction false} ValuesAppend(a: seq<Node>, b: seq<Node>)
    ensures Values(a + b) == Values(a) + Values(b)
  {
    assert |Values(a + b)| == |Values(a) + Values(b)|;
    forall i | 0 <= i < |a + b|
      ensures Values(a + b)[i] == (Values(a) + Values(b))[i]
    {
      if i < |a| {
        assert (a + b)[i] == a[i];
      } else {
        assert (a + b)[i] == b[i - |a|];
      }
    }
  }

  lemma DisjointUnionSize(a: set<Node>, n: Node, b: set<Node>)
    requires a !! b && n !in a && n !in b
    ensures |a + {n} + b| == |a| + 1 + |b|
  {
    assert a + {n} + b == (a + b) + {n};
    assert |a + b| == |a| + |b| by {
      assert a * b == {};
    }
  }

  lemma {:induction false} CountOwned(s: Shape)
    requires Owned(s)
    ensures |Nodes(s)| == Count(s)
  {
    match s
    case Leaf =>
    case Br(l, n, _, r) =>
      CountOwned(l);
      CountOwned(r);
      DisjointUnionSize(Nodes(l), n, Nodes(r));
  }

  lemma {:induction false} CountSize(s: Shape)
    ensures Count(s) == Size(Abs(s))
  {
    match s
    case Leaf =>
    case Br(l, _, _, r) =>
      CountSize(l);
      CountSize(r);
  }

  /** A node of the shape holds one of the values of the abstract tree. */
  lemma {:induction false} NodeDataInElems(s: Shape, m: Node)
    requires Linked(s) && m in Nodes(s)
    ensures m.data in Elems(Abs(s))
  {
    match s
    case Br(l, n, _, r) =>
      if m in Nodes(l) {
        NodeDataInElems(l, m);
      } else if m in Nodes(r) {
        NodeDataInElems(r, m);
      }
  }

  // ---------------------------------------------------------------------
  // A path from the root down to a position of the shape (a zipper): the
  // nodes passed on the way and the subtrees not taken.

  datatype Path =
    | Top
    | WentLeft(up: Path, node: Node, data: int, right: Shape)
    | WentRight(up: Path, left: Shape, node: Node, data: int)

  /** The shape obtained by putting `s` back at the end of the path. */
  ghost function Plug(p: Path, s: Shape): Shape {
    match p
    case Top => s
    case WentLeft(up, n, d, r) => Plug(up, Br(s, n, d, r))
    case WentRight(up, l, n, d) => Plug(up, Br(l, n, d, s))
  }

  ghost function PathNodes(p: Path): set<Node> {
    match p
    case Top => {}
    case WentLeft(up, n, _, r) => PathNodes(up) + {n} + Nodes(r)
    case WentRight(up, l, n, _) => PathNodes(up) + Nodes(l) + {n}
  }

  ghost predicate PathOwned(p: Path) {
    match p
    case Top => true
    case WentLeft(up, n, _, r) =>
      PathOwned(up) && Owned(r) && n !in Nodes(r) && PathNodes(up) !! ({n} + Nodes(r))
    case WentRight(up, l, n, _) =>
      PathOwned(up) && Owned(l) && n !in Nodes(l) && PathNodes(up) !! (Nodes(l) + {n})
  }

  /** Every node on the path holds its value and points to the next one
      down (ending at `child`) and to the subtree not taken. */
  ghost predicate PathLinked(p: Path, child: Node?)
    reads PathNodes(p)
  {
    match p
    case Top => true
    case WentLeft(up, n, d, r) =>
      n.data == d && n.left == child && n.right == RootOf(r) && Linked(r) && PathLinked(up, n)
    case WentRight(up, l, n, d) =>
      n.data == d && n.left == RootOf(l) && n.right == child && Linked(l) && PathLinked(up, n)
  }

  /** The abstract tree obtained by putting `t` back at the end of the path. */
  ghost function PathAbs(p: Path, t: BinTree): BinTree {
    match p
    case Top => t
    case WentLeft(up, _, d, r) => PathAbs(up, Branch(t, d, Abs(r)))
    case WentRight(up, l, _, d) => PathAbs(up, Branch(Abs(l), d, t))
  }

  lemma {:induction false} PlugNodes(p: Path, s: Shape)
    ensures Nodes(Plug(p, s)) == PathNodes(p) + Nodes(s)
  {
    match p
    case Top =>
    case WentLeft(up, n, d, r) => PlugNodes(up, Br(s, n, d, r));
    case WentRight(up, l, n, d) => PlugNodes(up, Br(l, n, d, s));
  }

  lemma {:induction false} PlugOwned(p: Path, s: Shape)
    ensures Owned(Plug(p, s)) <==> PathOwned(p) && Owned(s) && PathNodes(p) !! Nodes(s)
  {
    match p
    case Top =>
    case WentLeft(up, n, d, r) => PlugOwned(up, Br(s, n, d, r));
    case WentRight(up, l, n, d) => PlugOwned(up, Br(l, n, d, s));
  }

  lemma {:induction false} PlugLinked(p: Path, s: Shape)
    ensures Linked(Plug(p, s)) <==> PathLinked(p, RootOf(s)) && Linked(s)
  {
    PlugNodes(p, s);
    match p
    case Top =>
    case WentLeft(up, n, d, r) => PlugLinked(up, Br(s, n, d, r));
    case WentRight(up, l, n, d) => PlugLinked(up, Br(l, n, d, s));
  }

  lemma {:induction false} PlugAbs(p: Path, s: Shape)
    ensures Abs(Plug(p, s)) == PathAbs(p, Abs(s))
  {
    match p
    case Top =>
    case WentLeft(up, n, d, r) => PlugAbs(up, Br(s, n, d, r));
    case WentRight(up, l, n, d) => PlugAbs(up, Br(l, n, d, s));
  }

  /** Replacing the subtree at the end of a path does not change the root,
      unless the path is empty. */
  lemma {:induction false} PlugRoot(p: Path, a: Shape, b: Shape)
    requires p != Top
    ensures RootOf(Plug(p, a)) == RootOf(Plug(p, b))
  {
    match p
    case WentLeft(up, n, d, r) =>
      if up != Top { PlugRoot(up, Br(a, n, d, r), Br(b, n, d, r)); }
    case WentRight(up, l, n, d) =>
      if up != Top { PlugRoot(up, Br(l, n, d, a), Br(l, n, d, b)); }
  }

  /** Splitting a linked, owned tree at the end of a path. */
  lemma PlugSplit(p: Path, s: Shape)
    requires Owned(Plug(p, s)) && Linked(Plug(p, s))
    ensures PathLinked(p, RootOf(s)) && Linked(s) && Owned(s)
    ensures PathNodes(p) !! Nodes(s)
    ensures Nodes(Plug(p, s)) == PathNodes(p) + Nodes(s)
  {
    PlugLinked(p, s);
    PlugOwned(p, s);
    PlugNodes(p, s);
  }

  /** Putting back, at the end of a path, a subtree that gained one node
      keeps the whole tree owned, gains that node and keeps its root. */
  lemma PlugGrow(p: Path, s: Shape, t: Shape, n: Node)
    requires Owned(Plug(p, s)) && Owned(t) && n !in Nodes(Plug(p, s))
    requires Nodes(t) == Nodes(s) + {n} && RootOf(t) == RootOf(s)
    ensures Owned(Plug(p, t))
    ensures Nodes(Plug(p, t)) == Nodes(Plug(p, s)) + {n}
    ensures RootOf(Plug(p, t)) == RootOf(Plug(p, s))
    ensures Abs(Plug(p, t)) == PathAbs(p, Abs(t))
  {
    PlugOwned(p, s);
    PlugOwned(p, t);
    PlugNodes(p, s);
    PlugNodes(p, t);
    PlugAbs(p, t);
    if p != Top {
      PlugRoot(p, s, t);
    }
  }

  /** `Linked` depends only on the fields of the nodes of the shape. */
  twostate lemma {:induction false} LinkedStable(s: Shape)
    requires old(Linked(s))
    requires forall n :: n in Nodes(s) ==> old(allocated(n)) && unchanged(n)
    ensures Linked(s)
  {
    match s
    case Leaf =>
    case Br(l, n, _, r) =>
      assert n in Nodes(s) && Nodes(l) <= Nodes(s) && Nodes(r) <= Nodes(s);
      LinkedStable(l);
      LinkedStable(r);
  }

  lemma {:induction false} NodesAllocated(s: Shape)
    ensures forall n :: n in Nodes(s) ==> allocated(n)
  {
    match s
    case Leaf =>
    case Br(l, _, _, r) =>
      NodesAllocated(l);
      NodesAllocated(r);
  }

  /** The set of elements of a sequence has at most as many members as the sequence. */
  lemma {:induction false} ElementsBound(xs: seq<Node>)
    ensures |set x | x in xs| <= |xs|
  {
    if xs != [] {
      ElementsBound(xs[1..]);
      assert (set x | x in xs) == (set x | x in xs[1..]) + {xs[0]};
    }
  }

  /** A sequence that enumerates a set and is no longer than it repeats nothing. */
  lemma EnumerationIsDistinct(xs: seq<Node>, nodes: set<Node>)
    requires forall n :: n in xs <==> n in nodes
    requires |xs| == |nodes|
    ensures forall i, j :: 0 <= i < j < |xs| ==> xs[i] != xs[j]
  {
    forall i, j | 0 <= i < j < |xs| ensures xs[i] != xs[j] {
      if xs[i] == xs[j] {
        var ys := xs[..j] + xs[j + 1..];
        assert forall n :: n in xs ==> n in ys by {
          forall n | n in xs ensures n in ys {
            var k :| 0 <= k < |xs| && xs[k] == n;
            if k < j {
              assert ys[k] == n;
            } else if k == j {
              assert ys[i] == n;
            } else {
              assert ys[k - 1] == n;
            }
          }
        }
        assert (set x | x in ys) == nodes;
        ElementsBound(ys);
      }
    }
  }
}
