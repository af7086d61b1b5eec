/**
Finite directed graphs given by successor lists, as the task trees of the planner form them.
A walk is counted by its number of edges; an `Unfolding` certifies that the part of a graph it
covers has no cycle, by giving every node the size of the tree that unfolding it would produce.
*/
module Graphs {

  type Node = nat
  type Graph = map<Node, seq<Node>>

  ghost predicate Closed(g: Graph) {
    forall n, c :: n in g && c in g[n] ==> c in g
  }

  /** `b` is reached from `a` along exactly `k` edges. */
  ghost predicate ReachesIn(g: Graph, a: Node, b: Node, k: nat)
    decreases k
  {
    if k == 0 then a == b
    else a in g && exists c :: c in g[a] && ReachesIn(g, c, b, k - 1)
  }

  ghost predicate Reaches(g: Graph, a: Node, b: Node) {
    exists k: nat :: ReachesIn(g, a, b, k)
  }

  /** `b` is reached from `a` along at least one edge. */
  ghost predicate ReachesProperly(g: Graph, a: Node, b: Node) {
    exists k: nat :: k > 0 && ReachesIn(g, a, b, k)
  }

  ghost predicate OnCycle(g: Graph, n: Node) {
    ReachesProperly(g, n, n)
  }

  ghost predicate Acyclic(g: Graph) {
    forall n :: n in g ==> !OnCycle(g, n)
  }

  lemma {:induction false} WalkJoin(g: Graph, a: Node, b: Node, c: Node, i: nat, j: nat)
    requires ReachesIn(g, a, b, i) && ReachesIn(g, b, c, j)
    ensures ReachesIn(g, a, c, i + j)
    decreases i
  {
    if i > 0 {
      var m :| m in g[a] && ReachesIn(g, m, b, i - 1);
      WalkJoin(g, m, b, c, i - 1, j);
    }
  }

  lemma WalkStep(g: Graph, a: Node, b: Node, c: Node)
    requires Reaches(g, a, b) && b in g && c in g[b]
    ensures ReachesProperly(g, a, c)
  {
    var k: nat :| ReachesIn(g, a, b, k);
    assert ReachesIn(g, c, c, 0);
    assert ReachesIn(g, b, c, 1);
    WalkJoin(g, a, b, c, k, 1);
  }

  lemma ReachesTransitive(g: Graph, a: Node, b: Node, c: Node)
    requires Reaches(g, a, b) && Reaches(g, b, c)
    ensures Reaches(g, a, c)
    ensures ReachesProperly(g, a, b) || ReachesProperly(g, b, c) ==> ReachesProperly(g, a, c)
  {
    var i: nat :| ReachesIn(g, a, b, i) && (ReachesProperly(g, a, b) ==> i > 0);
    var j: nat :| ReachesIn(g, b, c, j) && (ReachesProperly(g, b, c) ==> j > 0);
    WalkJoin(g, a, b, c, i, j);
  }

  /** A set that holds `a`'s successors and is closed under successors holds all `a` properly reaches. */
  lemma {:induction false} ClosedSetHoldsReached(g: Graph, s: set<Node>, a: Node, b: Node, k: nat)
    requires k > 0 && ReachesIn(g, a, b, k)
    requires forall n, c :: (n == a || n in s) && n in g && c in g[n] ==> c in s
    ensures b in s
    decreases k
  {
    var m :| m in g[a] && ReachesIn(g, m, b, k - 1);
    if k > 1 { ClosedSetHoldsReached(g, s, m, b, k - 1); }
  }

  ghost function TotalSize(size: map<Node, nat>, ns: seq<Node>): (total: nat)
    requires forall n :: n in ns ==> n in size
    ensures forall n :: n in ns ==> size[n] <= total
  {
    if ns == [] then 0 else TotalSize(size, ns[..|ns| - 1]) + size[ns[|ns| - 1]]
  }

  lemma {:induction false} TotalSizeAgrees(size: map<Node, nat>, size': map<Node, nat>, ns: seq<Node>)
    requires forall n :: n in ns ==> n in size && n in size' && size[n] == size'[n]
    ensures TotalSize(size, ns) == TotalSize(size', ns)
  {
    if ns != [] { TotalSizeAgrees(size, size', ns[..|ns| - 1]); }
  }

  /** `size` covers a set of nodes closed under successors, with the size of each node's unfolded tree. */
  ghost predicate Unfolding(g: Graph, size: map<Node, nat>) {
    && (forall n :: n in size ==> n in g)
    && (forall n, c :: n in size && c in g[n] ==> c in size)
    && (forall n :: n in size ==> size[n] == 1 + TotalSize(size, g[n]))
  }

  /** Sizes drop along every edge, so a walk is no longer than the size of where it starts. */
  lemma {:induction false} UnfoldingBoundsWalks(g: Graph, size: map<Node, nat>, a: Node, b: Node, k: nat)
    requires Unfolding(g, size) && a in size && ReachesIn(g, a, b, k)
    ensures b in size && size[b] + k <= size[a]
    decreases k
  {
    if k > 0 {
      var c :| c in g[a] && ReachesIn(g, c, b, k - 1);
      UnfoldingBoundsWalks(g, size, c, b, k - 1);
    }
  }

  lemma UnfoldingHasNoCycle(g: Graph, size: map<Node, nat>, a: Node)
    requires Unfolding(g, size) && a in size
    ensures forall n :: Reaches(g, a, n) ==> !OnCycle(g, n)
  {
    forall n | Reaches(g, a, n) ensures !OnCycle(g, n) {
      var i: nat :| ReachesIn(g, a, n, i);
      UnfoldingBoundsWalks(g, size, a, n, i);
      if OnCycle(g, n) {
        var k: nat :| k > 0 && ReachesIn(g, n, n, k);
        UnfoldingBoundsWalks(g, size, n, n, k);
      }
    }
  }

  /** Adds one edge at the end of `a`'s successor list. */
  function AddEdge(g: Graph, a: Node, b: Node): Graph
    requires a in g
  {
    g[a := g[a] + [b]]
  }

  lemma {:induction false} AddEdgeKeepsWalks(g: Graph, a: Node, b: Node, x: Node, y: Node, k: nat)
    requires a in g && ReachesIn(g, x, y, k)
    ensures ReachesIn(AddEdge(g, a, b), x, y, k)
    decreases k
  {
    if k > 0 {
      var c :| c in g[x] && ReachesIn(g, c, y, k - 1);
      AddEdgeKeepsWalks(g, a, b, c, y, k - 1);
      assert c in AddEdge(g, a, b)[x];
    }
  }

  /** A walk over the new edge splits into a walk to its tail and a walk from its head. */
  lemma {:induction false} AddEdgeSplitsWalks(g: Graph, a: Node, b: Node, x: Node, y: Node, k: nat)
    requires a in g && ReachesIn(AddEdge(g, a, b), x, y, k)
    ensures Reaches(g, x, y) || (Reaches(g, x, a) && Reaches(g, b, y))
    ensures k > 0 && !ReachesProperly(g, x, y) ==> Reaches(g, x, a) && Reaches(g, b, y)
    decreases k
  {
    var h := AddEdge(g, a, b);
    if k == 0 {
      assert ReachesIn(g, x, y, 0);
    } else {
      var c :| c in h[x] && ReachesIn(h, c, y, k - 1);
      AddEdgeSplitsWalks(g, a, b, c, y, k - 1);
      assert ReachesIn(g, a, a, 0) && ReachesIn(g, x, x, 0) && ReachesIn(g, b, b, 0);
      if c in g[x] {
        WalkStep(g, x, x, c);
        if Reaches(g, c, y) { ReachesTransitive(g, x, c, y); }
        if Reaches(g, c, a) { ReachesTransitive(g, x, c, a); }
      } else {
        assert x == a && c == b;
      }
    }
  }

  /** Adding an edge to an acyclic graph keeps it acyclic exactly when the head does not reach the tail. */
  lemma AddEdgeAcyclic(g: Graph, a: Node, b: Node)
    requires a in g && Acyclic(g)
    ensures Acyclic(AddEdge(g, a, b)) <==> !Reaches(g, b, a)
  {
    var h := AddEdge(g, a, b);
    if Reaches(g, b, a) {
      var k: nat :| ReachesIn(g, b, a, k);
      AddEdgeKeepsWalks(g, a, b, b, a, k);
      assert b in h[a];
      assert ReachesIn(h, a, a, k + 1);
      assert OnCycle(h, a);
    } else {
      forall n | n in h ensures !OnCycle(h, n) {
        if OnCycle(h, n) {
          var k: nat :| k > 0 && ReachesIn(h, n, n, k);
          AddEdgeSplitsWalks(g, a, b, n, n, k);
          ReachesTransitive(g, b, n, a);
        }
      }
    }
  }
}
