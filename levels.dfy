/** Breadth-first order over a forest of shapes. `Bfs` is the queue
    discipline of `levelOrder` (take the front tree, visit its root, put its
    non-empty subtrees at the back); `LevelsOf` is the reference order
    (the roots of the whole forest, then the forest of all their children). */
module Levels {
  import opened LinkedTree

  /** Every tree of the forest is non-empty: only non-null nodes are queued. */
  ghost predicate AllBr(q: seq<Shape>) {
    forall i :: 0 <= i < |q| ==> q[i].Br?
  }

  ghost function ForestCount(q: seq<Shape>): nat {
    if q == [] then 0 else Count(q[0]) + ForestCount(q[1..])
  }

  ghost function ForestNodes(q: seq<Shape>): set<Node> {
    if q == [] then {} else Nodes(q[0]) + ForestNodes(q[1..])
  }

  /** The non-empty subtrees of a tree, left before right. */
  ghost function Kids(s: Shape): seq<Shape> {
    if s.Leaf? then []
    else (if s.l.Br? then [s.l] else []) + (if s.r.Br? then [s.r] else [])
  }

  ghost function Roots(q: seq<Shape>): seq<Node>
    requires AllBr(q)
  {
    if q == [] then [] else [q[0].node] + Roots(q[1..])
  }

  ghost function Children(q: seq<Shape>): seq<Shape> {
    if q == [] then [] else Kids(q[0]) + Children(q[1..])
  }

  lemma AllBrCons(q: seq<Shape>)
    requires q != []
    ensures AllBr(q) <==> q[0].Br? && AllBr(q[1..])
  {
    if q[0].Br? && AllBr(q[1..]) {
      forall i | 0 < i < |q| ensures q[i].Br? {
        assert q[i] == q[1..][i - 1];
      }
    }
  }

  /** A built-in sequence fact, stated as a lemma so that the proofs below
      can name the one instance they need: without these calls
      `RootsAppend`, `ForestAppend` and `BfsSplit` fail to verify. */
  lemma DropFirstOfAppend<T>(a: seq<T>, b: seq<T>)
    requires a != []
    ensures (a + b)[0] == a[0] && (a + b)[1..] == a[1..] + b
  {
  }

  lemma {:induction false} ForestAppend(a: seq<Shape>, b: seq<Shape>)
    ensures ForestCount(a + b) == ForestCount(a) + ForestCount(b)
    ensures ForestNodes(a + b) == ForestNodes(a) + ForestNodes(b)
    ensures AllBr(a + b) <==> AllBr(a) && AllBr(b)
  {
    if a == [] {
      assert a + b == b;
    } else {
      DropFirstOfAppend(a, b);
      ForestAppend(a[1..], b);
      AllBrCons(a);
      AllBrCons(a + b);
    }
  }

  lemma {:induction false} RootsAppend(a: seq<Shape>, b: seq<Shape>)
    requires AllBr(a) && AllBr(b)
    ensures AllBr(a + b) && Roots(a + b) == Roots(a) + Roots(b)
  {
    ForestAppend(a, b);
    if a == [] {
      assert a + b == b;
    } else {
      DropFirstOfAppend(a, b);
      AllBrCons(a);
      RootsAppend(a[1..], b);
    }
  }

  lemma RootsOfKids(s: Shape)
    requires s.Br?
    ensures AllBr(Kids(s))
    ensures Roots(Kids(s)) ==
      (if s.l.Br? then [s.l.node] else []) + (if s.r.Br? then [s.r.node] else [])
  {
    var kl, kr := if s.l.Br? then [s.l] else [], if s.r.Br? then [s.r] else [];
    assert [s.l][1..] == [] && [s.r][1..] == [];
    RootsAppend(kl, kr);
  }

  /** A forest of one tree. */
  lemma ForestOne(t: Shape)
    ensures ForestCount([t]) == Count(t) && ForestNodes([t]) == Nodes(t)
  {
    assert [t][1..] == [];
  }

  /** The children of a tree hold all of its nodes but the root. */
  lemma KidsForest(s: Shape)
    requires s.Br?
    ensures AllBr(Kids(s))
    ensures ForestCount(Kids(s)) == Count(s) - 1
    ensures ForestNodes(Kids(s)) == Nodes(s.l) + Nodes(s.r)
  {
    var kl, kr := if s.l.Br? then [s.l] else [], if s.r.Br? then [s.r] else [];
    ForestOne(s.l);
    ForestOne(s.r);
    ForestAppend(kl, kr);
  }

  lemma {:induction false} ChildrenForest(q: seq<Shape>)
    requires AllBr(q)
    ensures AllBr(Children(q))
    ensures ForestCount(Children(q)) == ForestCount(q) - |q|
  {
    if q != [] {
      ChildrenForest(q[1..]);
      KidsForest(q[0]);
      ForestAppend(Kids(q[0]), Children(q[1..]));
    }
  }

  /** The queue discipline of `levelOrder`. */
  ghost function Bfs(q: seq<Shape>): seq<Node>
    requires AllBr(q)
    decreases ForestCount(q)
  {
    if q == [] then []
    else
      KidsForest(q[0]);
      ForestAppend(q[1..], Kids(q[0]));
      [q[0].node] + Bfs(q[1..] + Kids(q[0]))
  }

  /** One turn of the queue: the front tree is taken off, its root visited
      and its non-empty subtrees queued behind the rest. */
  lemma BfsStep(q: seq<Shape>)
    requires q != [] && AllBr(q)
    ensures AllBr(q[1..] + Kids(q[0]))
    ensures ForestCount(q[1..] + Kids(q[0])) < ForestCount(q)
    ensures Bfs(q) == [q[0].node] + Bfs(q[1..] + Kids(q[0]))
    ensures Roots(q[1..] + Kids(q[0])) == Roots(q)[1..] +
      (if q[0].l.Br? then [q[0].l.node] else []) + (if q[0].r.Br? then [q[0].r.node] else [])
    ensures forall t :: t in q[1..] + Kids(q[0]) ==> t in q || t == q[0].l || t == q[0].r
  {
    var head, rest := q[0], q[1..];
    AllBrCons(q);
    KidsForest(head);
    ForestAppend(rest, Kids(head));
    RootsOfKids(head);
    RootsAppend(rest, Kids(head));
  }

  /** Generation by generation: the roots, then the forest of their children. */
  ghost function LevelsOf(q: seq<Shape>): seq<Node>
    requires AllBr(q)
    decreases ForestCount(q)
  {
    if q == [] then []
    else
      ChildrenForest(q);
      Roots(q) + LevelsOf(Children(q))
  }

  /** A built-in sequence fact, stated as a lemma so that `BfsSplit` and
      `Tree.LevelOrder` can name the one regrouping they need; without these
      calls both run out of resource. */
  lemma AppendAssoc<T>(a: seq<T>, b: seq<T>, c: seq<T>)
    ensures (a + b) + c == a + (b + c)
  {
  }

  /** Running the queue over `f + g` visits the roots of `f` first and then
      continues with `g` followed by the children of `f`. */
  lemma {:induction false} BfsSplit(f: seq<Shape>, g: seq<Shape>)
    requires AllBr(f) && AllBr(g)
    ensures AllBr(g + Children(f))
    ensures Bfs(f + g) == Roots(f) + Bfs(g + Children(f))
    decreases |f|
  {
    ChildrenForest(f);
    ForestAppend(g, Children(f));
    if f == [] {
      assert f + g == g && g + Children(f) == g;
    } else {
      var h, rest := f[0], f[1..];
      var g' := g + Kids(h);
      assert AllBr(rest) && h.Br?;
      KidsForest(h);
      ForestAppend(g, Kids(h));
      ForestAppend(f, g);
      DropFirstOfAppend(f, g);
      AppendAssoc(rest, g, Kids(h));
      assert Bfs(f + g) == [h.node] + Bfs(rest + g');
      BfsSplit(rest, g');
      assert Children(f) == Kids(h) + Children(rest);
      AppendAssoc(g, Kids(h), Children(rest));
    }
  }

  /** The queue visits the forest generation by generation. */
  lemma {:induction false} BfsIsLevels(q: seq<Shape>)
    requires AllBr(q)
    ensures Bfs(q) == LevelsOf(q)
    decreases ForestCount(q)
  {
    if q != [] {
      BfsSplit(q, []);
      assert q + [] == q && [] + Children(q) == Children(q);
      ChildrenForest(q);
      BfsIsLevels(Children(q));
    }
  }

  /** The queue visits every node of the forest and visits no other node; it
      makes as many visits as there are nodes. */
  lemma {:induction false} BfsVisitsAll(q: seq<Shape>)
    requires AllBr(q)
    ensures |Bfs(q)| == ForestCount(q)
    ensures forall n :: n in Bfs(q) <==> n in ForestNodes(q)
    decreases ForestCount(q)
  {
    if q != [] {
      KidsForest(q[0]);
      ForestAppend(q[1..], Kids(q[0]));
      BfsVisitsAll(q[1..] + Kids(q[0]));
    }
  }

  /** The queue started with one non-empty owned tree visits that tree's
      nodes generation by generation, each exactly once, the root first. */
  lemma BfsOfTree(s: Shape)
    requires s.Br? && Owned(s)
    ensures AllBr([s])
    ensures Bfs([s]) == LevelsOf([s])
    ensures Bfs([s]) != [] && Bfs([s])[0] == s.node
    ensures forall n :: n in Bfs([s]) <==> n in Nodes(s)
    ensures forall i, j :: 0 <= i < j < |Bfs([s])| ==> Bfs([s])[i] != Bfs([s])[j]
  {
    assert AllBr([s]) && [s][1..] == [];
    BfsIsLevels([s]);
    BfsVisitsAll([s]);
    ForestOne(s);
    CountOwned(s);
    EnumerationIsDistinct(Bfs([s]), Nodes(s));
  }
}
