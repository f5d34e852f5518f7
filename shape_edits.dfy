/** What insertion and removal do to the node objects, stated on shapes.
    `InsertedShape` and `RemovedShape` follow `Inserted` and `Removed`
    position by position but keep the node found at each position, so they
    say which node objects stay, which one arrives or leaves, where each
    stays and what value it then holds. */
module ShapeEdits {
  import opened BstSpec
  import opened LinkedTree

  /** The value the shape records for the node `m`. */
  ghost function DataOf(s: Shape, m: Node): int
    requires m in Nodes(s)
  {
    if s.node == m then s.data
    else if m in Nodes(s.l) then DataOf(s.l, m)
    else DataOf(s.r, m)
  }

  /** The edge distance from the root of `s` down to the node `m`. */
  ghost function DepthIn(s: Shape, m: Node): nat
    requires m in Nodes(s)
  {
    if s.node == m then 0
    else if m in Nodes(s.l) then 1 + DepthIn(s.l, m)
    else 1 + DepthIn(s.r, m)
  }

  /** The node reached from the root of `s` by following `left` references. */
  ghost function Leftmost(s: Shape): Node
    requires s.Br?
  {
    if s.l.Leaf? then s.node else Leftmost(s.l)
  }

  /** In a linked shape every node holds the value the shape records. */
  lemma {:induction false} LinkedData(s: Shape)
    requires Linked(s)
    ensures forall m :: m in Nodes(s) ==> m.data == DataOf(s, m)
  {
    match s
    case Leaf =>
    case Br(l, n, _, r) =>
      LinkedData(l);
      LinkedData(r);
  }

  // ---------------------------------------------------------------------
  // Insertion

  /** `Inserted` on shapes: the descent keeps every node it passes, and an
      absent value arrives as the new leaf `x`. */
  ghost function InsertedShape(s: Shape, v: int, x: Node): Shape {
    match s
    case Leaf => Br(Leaf, x, v, Leaf)
    case Br(l, n, d, r) =>
      if d == v then s
      else if v < d then Br(InsertedShape(l, v, x), n, d, r)
      else Br(l, n, d, InsertedShape(r, v, x))
  }

  lemma {:induction false} InsertedShapeAbs(s: Shape, v: int, x: Node)
    ensures Abs(InsertedShape(s, v, x)) == Inserted(Abs(s), v)
  {
    match s
    case Leaf =>
    case Br(l, n, d, r) =>
      InsertedShapeAbs(l, v, x);
      InsertedShapeAbs(r, v, x);
  }

  /** Inserting a fresh leaf keeps every old node, at the depth it had, and
      adds only the leaf. */
  lemma {:induction false} InsertedShapeKeepsDepth(s: Shape, v: int, x: Node)
    requires Owned(s) && x !in Nodes(s)
    ensures Nodes(s) <= Nodes(InsertedShape(s, v, x)) <= Nodes(s) + {x}
    ensures forall m :: m in Nodes(s) ==> DepthIn(InsertedShape(s, v, x), m) == DepthIn(s, m)
  {
    match s
    case Leaf =>
    case Br(l, n, d, r) =>
      InsertedShapeKeepsDepth(l, v, x);
      InsertedShapeKeepsDepth(r, v, x);
  }

  /** Every turn of the path is the one the insertion descent for `v` takes. */
  ghost predicate OnDescent(p: Path, v: int) {
    match p
    case Top => true
    case WentLeft(up, _, d, _) => v < d && OnDescent(up, v)
    case WentRight(up, _, _, d) => d < v && OnDescent(up, v)
  }

  /** Inserting into the whole tree is inserting into the subtree at the end
      of the descent path. */
  lemma {:induction false} PlugInserted(p: Path, s: Shape, v: int, x: Node)
    requires OnDescent(p, v)
    ensures InsertedShape(Plug(p, s), v, x) == Plug(p, InsertedShape(s, v, x))
  {
    match p
    case Top =>
    case WentLeft(up, n, d, r) => PlugInserted(up, Br(s, n, d, r), v, x);
    case WentRight(up, l, n, d) => PlugInserted(up, Br(l, n, d, s), v, x);
  }

  // ---------------------------------------------------------------------
  // Removal

  /** `Removed` on shapes: a node with at most one child is dropped and its
      child takes its place; a node with two children stays and takes the
      minimum of its right subtree, from which that minimum is removed. */
  ghost function RemovedShape(s: Shape, v: int): Shape {
    match s
    case Leaf => Leaf
    case Br(l, n, d, r) =>
      if v < d then Br(RemovedShape(l, v), n, d, r)
      else if v > d then Br(l, n, d, RemovedShape(r, v))
      else if l.Leaf? then r
      else if r.Leaf? then l
      else Br(l, n, Min(Abs(r)), RemovedShape(r, Min(Abs(r))))
  }

  lemma {:induction false} RemovedShapeAbs(s: Shape, v: int)
    ensures Abs(RemovedShape(s, v)) == Removed(Abs(s), v)
  {
    match s
    case Leaf =>
    case Br(l, n, d, r) =>
      RemovedShapeAbs(l, v);
      RemovedShapeAbs(r, v);
      if r.Br? {
        RemovedShapeAbs(r, Min(Abs(r)));
      }
  }

  /** Removing an absent value leaves the shape, node for node, as it was. */
  lemma {:induction false} RemovedShapeAbsent(s: Shape, v: int)
    requires v !in Elems(Abs(s))
    ensures RemovedShape(s, v) == s
  {
    match s
    case Leaf =>
    case Br(l, n, d, r) =>
      RemovedShapeAbsent(l, v);
      RemovedShapeAbsent(r, v);
  }

  lemma {:induction false} RemovedShapeNodes(s: Shape, v: int)
    ensures Nodes(RemovedShape(s, v)) <= Nodes(s)
  {
    match s
    case Leaf =>
    case Br(l, n, d, r) =>
      RemovedShapeNodes(l, v);
      RemovedShapeNodes(r, v);
      if r.Br? {
        RemovedShapeNodes(r, Min(Abs(r)));
      }
  }

  /** Removing a present value drops exactly one node object. */
  lemma {:induction false} RemovedShapeDropsOne(s: Shape, v: int)
    requires Owned(s) && IsBST(Abs(s)) && v in Elems(Abs(s))
    ensures exists gone :: gone in Nodes(s) && Nodes(RemovedShape(s, v)) == Nodes(s) - {gone}
  {
    var Br(l, n, d, r) := s;
    if v < d {
      RemovedShapeDropsOne(l, v);
      var gone :| gone in Nodes(l) && Nodes(RemovedShape(l, v)) == Nodes(l) - {gone};
      assert Nodes(RemovedShape(s, v)) == Nodes(s) - {gone};
    } else if v > d {
      RemovedShapeDropsOne(r, v);
      var gone :| gone in Nodes(r) && Nodes(RemovedShape(r, v)) == Nodes(r) - {gone};
      assert Nodes(RemovedShape(s, v)) == Nodes(s) - {gone};
    } else if l.Leaf? || r.Leaf? {
      assert Nodes(RemovedShape(s, v)) == Nodes(s) - {n};
    } else {
      var m := Min(Abs(r));
      MinIsLeast(Abs(r));
      RemovedShapeDropsOne(r, m);
      var gone :| gone in Nodes(r) && Nodes(RemovedShape(r, m)) == Nodes(r) - {gone};
      assert Nodes(RemovedShape(s, v)) == Nodes(s) - {gone};
    }
  }

  /** Removing the minimum of a search tree drops its leftmost node. */
  lemma {:induction false} RemovedMinDropsLeftmost(s: Shape)
    requires s.Br? && Owned(s) && IsBST(Abs(s))
    ensures Leftmost(s) in Nodes(s) && DataOf(s, Leftmost(s)) == Min(Abs(s))
    ensures Nodes(RemovedShape(s, Min(Abs(s)))) == Nodes(s) - {Leftmost(s)}
  {
    var Br(l, n, d, r) := s;
    if l.Br? {
      MinIsLeast(Abs(l));
      RemovedMinDropsLeftmost(l);
    }
  }

  /** Removing the value of a node with two children keeps that node, which
      takes the minimum of its right subtree, and drops the leftmost node of
      the right subtree instead: that node object leaves the tree although it
      did not hold the removed value. */
  lemma RemovedTwoChildren(s: Shape)
    requires s.Br? && s.l.Br? && s.r.Br? && Owned(s) && IsBST(Abs(s))
    ensures RemovedShape(s, s.data).Br? && RemovedShape(s, s.data).node == s.node
    ensures RemovedShape(s, s.data).data == Min(Abs(s.r))
    ensures Leftmost(s.r) in Nodes(s.r) && DataOf(s, Leftmost(s.r)) == Min(Abs(s.r)) > s.data
    ensures Nodes(RemovedShape(s, s.data)) == Nodes(s) - {Leftmost(s.r)}
  {
    RemovedMinDropsLeftmost(s.r);
    MinIsLeast(Abs(s.r));
  }

  /** Removing the minimum of a search tree changes no node's value. */
  lemma {:induction false} RemovedMinKeepsData(s: Shape)
    requires s.Br? && Owned(s) && IsBST(Abs(s))
    ensures Nodes(RemovedShape(s, Min(Abs(s)))) <= Nodes(s)
    ensures forall m :: m in Nodes(RemovedShape(s, Min(Abs(s)))) ==>
      DataOf(RemovedShape(s, Min(Abs(s))), m) == DataOf(s, m)
  {
    var Br(l, n, d, r) := s;
    RemovedShapeNodes(s, Min(Abs(s)));
    if l.Br? {
      MinIsLeast(Abs(l));
      RemovedMinKeepsData(l);
      RemovedShapeNodes(l, Min(Abs(l)));
    }
  }

  /** In a search tree, removal changes the value of no node except the one
      that held the removed value. */
  lemma {:induction false} RemovedShapeKeepsData(s: Shape, v: int)
    requires Owned(s) && IsBST(Abs(s))
    ensures Nodes(RemovedShape(s, v)) <= Nodes(s)
    ensures forall m :: m in Nodes(RemovedShape(s, v)) && DataOf(s, m) != v ==>
      DataOf(RemovedShape(s, v), m) == DataOf(s, m)
  {
    RemovedShapeNodes(s, v);
    match s
    case Leaf =>
    case Br(l, n, d, r) =>
      if v < d {
        RemovedShapeKeepsData(l, v);
      } else if v > d {
        RemovedShapeKeepsData(r, v);
      } else if r.Br? {
        RemovedMinKeepsData(r);
      }
  }
}
