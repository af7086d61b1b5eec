/**
The dependency checks of the planner's task nodes: the ancestor search, the guard of `add_child`
and the cycle check `validate_dag`.  A node stands for a task object's identity.
*/
module TaskGraph {
  import opened Graphs
  import opened Optional

  // ---------------------------------------------------------------- ancestors and add_child

  /** Collects everything reachable through preconditions, the node itself only if it is on a cycle. */
  method GetAncestors(preconditions: Graph, self: Node) returns (ancestors: set<Node>)
    requires Closed(preconditions) && self in preconditions
    ensures forall n :: n in ancestors <==> ReachesProperly(preconditions, self, n)
  {
    var g := preconditions;
    ancestors := {};
    var stack := [self];
    assert ReachesIn(g, self, self, 0);
    while stack != []
      invariant forall n :: n in stack ==> n in g && (n == self || n in ancestors)
      invariant forall n :: n in ancestors ==> n in g && ReachesProperly(g, self, n)
      invariant forall n, c :: (n == self || n in ancestors) && n in g && c in g[n] ==> n in stack || c in ancestors
      decreases g.Keys - ancestors, |stack|
    {
      var current := stack[|stack| - 1];
      stack := stack[..|stack| - 1];
      ghost var before, depth := ancestors, |stack|;
      for i := 0 to |g[current]|
        invariant forall n :: n in stack ==> n in g && (n == self || n in ancestors)
        invariant forall n :: n in ancestors ==> n in g && ReachesProperly(g, self, n)
        invariant forall n, c :: (n == self || n in ancestors) && n in g && c in g[n] ==>
                                   n == current || n in stack || c in ancestors
        invariant forall j :: 0 <= j < i ==> g[current][j] in ancestors
        invariant before <= ancestors && (before == ancestors ==> |stack| == depth)
      {
        var parent := g[current][i];
        if parent !in ancestors {
          assert Reaches(g, self, current);
          WalkStep(g, self, current, parent);
          ancestors := ancestors + {parent};
          stack := stack + [parent];
          assert parent !in before;
        }
      }
    }
    forall n | ReachesProperly(g, self, n) ensures n in ancestors {
      var k: nat :| k > 0 && ReachesIn(g, self, n, k);
      ClosedSetHoldsReached(g, ancestors, self, n, k);
    }
  }

  /** The task objects of one planning problem: `_children` grows, `preconditions` are fixed. */
  class TaskNetwork {
    const preconditions: Graph
    var children: Graph

    constructor (preconditions: Graph)
      requires Closed(preconditions)
      ensures this.preconditions == preconditions && Valid()
      ensures children == map n | n in preconditions :: []
    {
      this.preconditions := preconditions;
      children := map n | n in preconditions :: [];
    }

    ghost predicate Valid()
      reads this
    {
      Closed(preconditions) && Closed(children) && children.Keys == preconditions.Keys
    }

    /** Refuses a node that is among the ancestors, otherwise appends it; returns whether it did. */
    method AddChild(self: Node, node: Node) returns (added: bool)
      requires Valid() && self in children && node in children
      modifies this
      ensures Valid()
      ensures added <==> !ReachesProperly(preconditions, self, node)
      ensures children == if added then AddEdge(old(children), self, node) else old(children)
      ensures children.Keys == old(children.Keys) && forall n :: n in children ==>
                children[n] == if added && n == self then old(children)[n] + [node] else old(children)[n]
      ensures added && old(Acyclic(children)) ==> (Acyclic(children) <==> !Reaches(old(children), node, self))
    {
      var ancestors := GetAncestors(preconditions, self);
      added := node !in ancestors;
      if added {
        if Acyclic(children) { AddEdgeAcyclic(children, self, node); }
        children := AddEdge(children, self, node);
      }
    }
  }

  /** The guard of `add_child` looks at preconditions only, so it lets a cycle of children through. */
  lemma AddChildGuardMissesCycles(a: Node, b: Node)
    requires a != b
    ensures var preconditions: Graph := map[a := [], b := []];
            var children: Graph := map[a := [], b := [a]];
            && Acyclic(children)
            && !ReachesProperly(preconditions, a, b)
            && !Acyclic(AddEdge(children, a, b))
  {
    var preconditions: Graph := map[a := [], b := []];
    var children: Graph := map[a := [], b := [a]];
    var size: map<Node, nat> := map[a := 1, b := 2];
    assert TotalSize(size, [a]) == 1;
    assert Unfolding(children, size);
    forall n | n in children ensures !OnCycle(children, n) {
      assert ReachesIn(children, n, n, 0);
      UnfoldingHasNoCycle(children, size, n);
    }
    assert ReachesIn(children, a, a, 0);
    assert a in children[b] && ReachesIn(children, b, a, 1);
    AddEdgeAcyclic(children, a, b);
  }

  // ---------------------------------------------------------------- validate_dag

  ghost function Members(s: seq<Node>): set<Node> { set n | n in s }

  ghost function Top(paths: seq<seq<Node>>): seq<Node> {
    if paths == [] then [] else paths[|paths| - 1]
  }

  ghost predicate Distinct(s: seq<Node>) {
    forall i, j :: 0 <= i < j < |s| ==> s[i] != s[j]
  }

  /** What every stack entry says: how it was reached, and through which nodes. */
  ghost predicate EntriesTraced(g: Graph, start: Node, stack: seq<(Node, set<Node>)>, paths: seq<seq<Node>>) {
    && |paths| == |stack|
    && (forall i :: 0 <= i < |stack| ==> stack[i].0 in g && stack[i].1 == Members(paths[i]))
    && (forall i :: 0 <= i < |stack| ==> Reaches(g, start, stack[i].0))
    && (forall i, n :: 0 <= i < |stack| && n in paths[i] ==> ReachesProperly(g, n, stack[i].0))
  }

  /** Entries further down the stack carry prefixes of the paths further up. */
  ghost predicate Nested(paths: seq<seq<Node>>) {
    forall i, j :: 0 <= i <= j < |paths| ==> paths[i] <= paths[j]
  }

  ghost predicate Pending(stack: seq<(Node, set<Node>)>, child: Node, parent: Node) {
    exists j :: 0 <= j < |stack| && stack[j].0 == child && parent in stack[j].1
  }

  /** Every child of a node on the open chain is finished, further down the chain, or on the stack. */
  ghost predicate ChainServed(g: Graph, size: map<Node, nat>, chain: seq<Node>, stack: seq<(Node, set<Node>)>) {
    && Distinct(chain)
    && (forall i :: 0 <= i < |chain| ==> chain[i] in g && chain[i] !in size)
    && (forall i, c :: 0 <= i < |chain| && c in g[chain[i]] ==>
                         c in size || c in chain[i + 1..] || Pending(stack, c, chain[i]))
  }

  /** Finishes the nodes of an open chain from `k` on, innermost first. */
  lemma {:induction false} FinishChain(g: Graph, size: map<Node, nat>, chain: seq<Node>, k: nat)
    returns (size': map<Node, nat>)
    requires Unfolding(g, size) && k <= |chain| && Distinct(chain)
    requires forall i :: 0 <= i < |chain| ==> chain[i] in g && chain[i] !in size
    requires forall i, c :: k <= i < |chain| && c in g[chain[i]] ==> c in size || c in chain[i + 1..]
    ensures Unfolding(g, size') && size'.Keys == size.Keys + Members(chain[k..])
    decreases |chain| - k
  {
    if k == |chain| {
      size' := size;
    } else {
      var inner := FinishChain(g, size, chain, k + 1);
      var n := chain[k];
      assert chain[k..] == [n] + chain[k + 1..];
      assert n !in chain[k + 1..];
      size' := inner[n := 1 + TotalSize(inner, g[n])];
      forall m | m in size' ensures size'[m] == 1 + TotalSize(size', g[m]) {
        TotalSizeAgrees(inner, size', g[m]);
      }
    }
  }

  lemma PendingIsOpen(stack: seq<(Node, set<Node>)>, paths: seq<seq<Node>>, c: Node, n: Node)
    requires |paths| == |stack| && Nested(paths) && Pending(stack, c, n)
    requires forall i :: 0 <= i < |stack| ==> stack[i].1 == Members(paths[i])
    ensures n in Top(paths)
  {
    var j :| 0 <= j < |stack| && stack[j].0 == c && n in stack[j].1;
    assert paths[j] <= paths[|paths| - 1];
  }

  /** After a pop, the chain shrinks to the path on top of what is left of the stack. */
  lemma Retreat(g: Graph, size: map<Node, nat>, chain: seq<Node>, stack: seq<(Node, set<Node>)>, paths: seq<seq<Node>>)
    returns (size': map<Node, nat>)
    requires Unfolding(g, size) && ChainServed(g, size, chain, stack)
    requires |paths| == |stack| && Nested(paths) && Top(paths) <= chain
    requires forall i :: 0 <= i < |stack| ==> stack[i].1 == Members(paths[i])
    ensures Unfolding(g, size') && ChainServed(g, size', Top(paths), stack)
    ensures size'.Keys == size.Keys + (Members(chain) - Members(Top(paths)))
  {
    var top := Top(paths);
    LeftServed(g, size, chain, stack, paths);
    hide ChainServed, Unfolding, Nested, Top;
    size' := FinishChain(g, size, chain, |top|);
    MembersRest(chain, top);
    RetreatServes(g, size, size', chain, top, stack);
  }

  lemma MembersRest(chain: seq<Node>, top: seq<Node>)
    requires top <= chain && Distinct(chain)
    ensures Members(chain[|top|..]) == Members(chain) - Members(top)
  {
    assert chain == top + chain[|top|..];
  }

  /** Nodes of the chain beyond the new top have no child on the stack any more. */
  lemma LeftServed(g: Graph, size: map<Node, nat>, chain: seq<Node>, stack: seq<(Node, set<Node>)>, paths: seq<seq<Node>>)
    requires ChainServed(g, size, chain, stack)
    requires |paths| == |stack| && Nested(paths) && Top(paths) <= chain
    requires forall i :: 0 <= i < |stack| ==> stack[i].1 == Members(paths[i])
    ensures Distinct(chain)
    ensures forall i :: 0 <= i < |chain| ==> chain[i] in g && chain[i] !in size
    ensures forall i, c :: |Top(paths)| <= i < |chain| && c in g[chain[i]] ==> c in size || c in chain[i + 1..]
  {
    forall i, c | |Top(paths)| <= i < |chain| && c in g[chain[i]] ensures c in size || c in chain[i + 1..] {
      if Pending(stack, c, chain[i]) { PendingIsOpen(stack, paths, c, chain[i]); }
    }
  }

  lemma RetreatServes(g: Graph, size: map<Node, nat>, size': map<Node, nat>, chain: seq<Node>, top: seq<Node>,
                      stack: seq<(Node, set<Node>)>)
    requires ChainServed(g, size, chain, stack) && top <= chain
    requires size'.Keys == size.Keys + Members(chain[|top|..])
    ensures ChainServed(g, size', top, stack)
  {
    hide Pending;
    forall i, c | 0 <= i < |top| && c in g[top[i]]
      ensures c in size' || c in top[i + 1..] || Pending(stack, c, top[i])
    {
      assert top[i] == chain[i];
      if c in chain[i + 1..] { AfterIn(chain, top, i, c); }
    }
  }

  lemma AfterIn(chain: seq<Node>, top: seq<Node>, i: nat, c: Node)
    requires top <= chain && i < |top| && c in chain[i + 1..]
    ensures c in top[i + 1..] || c in Members(chain[|top|..])
  {
    assert chain[i + 1..] == top[i + 1..] + chain[|top|..];
  }

  /** Popping an entry whose node is finished leaves the chain served. */
  lemma ServeRest(g: Graph, size: map<Node, nat>, node: Node, path: set<Node>, chain: seq<Node>,
                  below: seq<(Node, set<Node>)>)
    requires ChainServed(g, size, chain, below + [(node, path)]) && node in size
    ensures ChainServed(g, size, chain, below)
  {
    forall i, c | 0 <= i < |chain| && c in g[chain[i]]
      ensures c in size || c in chain[i + 1..] || Pending(below, c, chain[i])
    {
      if Pending(below + [(node, path)], c, chain[i]) { PendingAfterPop(below, node, path, c, chain[i]); }
    }
  }

  lemma PendingAfterPop(below: seq<(Node, set<Node>)>, node: Node, path: set<Node>, c: Node, n: Node)
    requires Pending(below + [(node, path)], c, n)
    ensures c == node || Pending(below, c, n)
  {
    var stack := below + [(node, path)];
    var j :| 0 <= j < |stack| && stack[j].0 == c && n in stack[j].1;
    if j < |below| { assert below[j] == stack[j]; }
  }

  lemma PendingAbove(below: seq<(Node, set<Node>)>, stack: seq<(Node, set<Node>)>, c: Node, n: Node)
    requires below <= stack && Pending(below, c, n)
    ensures Pending(stack, c, n)
  {
    var j :| 0 <= j < |below| && below[j].0 == c && n in below[j].1;
    assert stack[j] == below[j];
  }

  /** Visiting a new node puts it at the end of the chain and each of its children on the stack. */
  lemma ServeChildren(g: Graph, size: map<Node, nat>, node: Node, path: set<Node>, chain: seq<Node>,
                      below: seq<(Node, set<Node>)>, stack: seq<(Node, set<Node>)>)
    requires ChainServed(g, size, chain, below + [(node, path)])
    requires node in g && node !in size && node !in chain
    requires |stack| == |below| + |g[node]| && below <= stack
    requires forall j :: 0 <= j < |g[node]| ==> stack[|below| + j] == (g[node][j], path + {node})
    ensures ChainServed(g, size, chain + [node], stack)
  {
    var chain' := chain + [node];
    forall i, c | 0 <= i < |chain'| && c in g[chain'[i]]
      ensures c in size || c in chain'[i + 1..] || Pending(stack, c, chain'[i])
    {
      if i == |chain| {
        var j :| 0 <= j < |g[node]| && g[node][j] == c;
        assert stack[|below| + j] == (c, path + {node});
      } else {
        assert chain'[i + 1..] == chain[i + 1..] + [node];
        if Pending(below + [(node, path)], c, chain[i]) {
          PendingAfterPop(below, node, path, c, chain[i]);
          if Pending(below, c, chain[i]) { PendingAbove(below, stack, c, chain[i]); }
        }
      }
    }
  }

  lemma TraceChildren(g: Graph, start: Node, node: Node, path: set<Node>, chain: seq<Node>,
                      below: seq<(Node, set<Node>)>, belowPaths: seq<seq<Node>>,
                      stack: seq<(Node, set<Node>)>, paths: seq<seq<Node>>)
    requires Closed(g) && node in g
    requires EntriesTraced(g, start, below + [(node, path)], belowPaths + [chain]) && Nested(belowPaths + [chain])
    requires |stack| == |below| + |g[node]| && below <= stack
    requires forall j :: 0 <= j < |g[node]| ==> stack[|below| + j] == (g[node][j], path + {node})
    requires paths == belowPaths + seq(|g[node]|, _ => chain + [node])
    ensures EntriesTraced(g, start, stack, paths) && Nested(paths)
  {
    var stack0, paths0 := below + [(node, path)], belowPaths + [chain];
    forall i | 0 <= i < |stack|
      ensures stack[i].0 in g && stack[i].1 == Members(paths[i]) && Reaches(g, start, stack[i].0)
      ensures forall n :: n in paths[i] ==> ReachesProperly(g, n, stack[i].0)
    {
      if i < |below| {
        assert stack[i] == stack0[i] && paths[i] == paths0[i];
      } else {
        assert stack0[|below|] == (node, path) && paths0[|below|] == chain;
        var child := g[node][i - |below|];
        assert stack[i] == (child, path + {node}) && paths[i] == chain + [node];
        WalkStep(g, start, node, child);
        forall n | n in paths[i] ensures ReachesProperly(g, n, child) {
          assert n == node ==> ReachesIn(g, n, node, 0);
          WalkStep(g, n, node, child);
        }
      }
    }
    forall i, j | 0 <= i <= j < |paths| ensures paths[i] <= paths[j] {
      assert i < |below| ==> paths0[i] <= paths0[if j < |below| then j else |below|];
    }
  }

  /** The invariant of the search: finished nodes have sizes, the others visited form the open chain. */
  ghost predicate Searching(g: Graph, start: Node, visited: set<Node>, stack: seq<(Node, set<Node>)>,
                            paths: seq<seq<Node>>, size: map<Node, nat>)
  {
    && EntriesTraced(g, start, stack, paths) && Nested(paths)
    && Unfolding(g, size) && ChainServed(g, size, Top(paths), stack)
    && Members(Top(paths)) <= visited <= g.Keys && size.Keys == visited - Members(Top(paths))
    && (start in visited || stack == [(start, {})])
  }

  /** Popping an entry for a visited node that is not on its own path. */
  lemma SkipVisited(g: Graph, start: Node, visited: set<Node>, node: Node, path: set<Node>, chain: seq<Node>,
                    below: seq<(Node, set<Node>)>, belowPaths: seq<seq<Node>>, size: map<Node, nat>)
    returns (size': map<Node, nat>)
    requires Searching(g, start, visited, below + [(node, path)], belowPaths + [chain], size)
    requires node in visited && node !in path
    ensures Searching(g, start, visited, below, belowPaths, size')
  {
    TracedBelow(g, start, node, path, chain, below, belowPaths);
    assert Top(belowPaths + [chain]) == chain;
    ServeRest(g, size, node, path, chain, below);
    size' := Retreat(g, size, chain, below, belowPaths);
    assert Members(Top(belowPaths)) <= Members(chain);
  }

  lemma TracedBelow(g: Graph, start: Node, node: Node, path: set<Node>, chain: seq<Node>,
                    below: seq<(Node, set<Node>)>, belowPaths: seq<seq<Node>>)
    requires EntriesTraced(g, start, below + [(node, path)], belowPaths + [chain]) && Nested(belowPaths + [chain])
    ensures EntriesTraced(g, start, below, belowPaths) && Nested(belowPaths)
    ensures path == Members(chain) && Top(belowPaths) <= chain && node in g
  {
    var stack, paths := below + [(node, path)], belowPaths + [chain];
    assert forall i :: 0 <= i < |below| ==> stack[i] == below[i] && paths[i] == belowPaths[i];
    assert stack[|below|] == (node, path) && paths[|below|] == chain;
    if below != [] { assert paths[|below| - 1] <= paths[|below|]; }
  }

  /** Popping an entry for a new node and pushing its children. */
  lemma VisitNew(g: Graph, start: Node, visited: set<Node>, node: Node, path: set<Node>, chain: seq<Node>,
                 below: seq<(Node, set<Node>)>, belowPaths: seq<seq<Node>>, size: map<Node, nat>,
                 stack: seq<(Node, set<Node>)>)
    returns (paths: seq<seq<Node>>, size': map<Node, nat>)
    requires Closed(g) && Searching(g, start, visited, below + [(node, path)], belowPaths + [chain], size)
    requires node !in visited && node in g
    requires |stack| == |below| + |g[node]| && below <= stack
    requires forall j :: 0 <= j < |g[node]| ==> stack[|below| + j] == (g[node][j], path + {node})
    ensures Searching(g, start, visited + {node}, stack, paths, size')
  {
    hide Unfolding, ChainServed, EntriesTraced, Nested, Closed;
    TracedBelow(g, start, node, path, chain, below, belowPaths);
    assert Top(belowPaths + [chain]) == chain;
    paths := belowPaths + seq(|g[node]|, _ => chain + [node]);
    ServeChildren(g, size, node, path, chain, below, stack);
    TraceChildren(g, start, node, path, chain, below, belowPaths, stack, paths);
    var chain' := chain + [node];
    assert Top(paths) <= chain' && |paths| == |stack|;
    EntryPaths(g, start, stack, paths);
    size' := Retreat(g, size, chain', stack, paths);
    assert Members(chain') == Members(chain) + {node};
    StartVisited(start, visited, node, path, below);
  }

  lemma EntryPaths(g: Graph, start: Node, stack: seq<(Node, set<Node>)>, paths: seq<seq<Node>>)
    requires EntriesTraced(g, start, stack, paths)
    ensures |paths| == |stack| && forall i :: 0 <= i < |stack| ==> stack[i].1 == Members(paths[i])
  {}

  lemma StartVisited(start: Node, visited: set<Node>, node: Node, path: set<Node>, below: seq<(Node, set<Node>)>)
    requires start in visited || below + [(node, path)] == [(start, {})]
    ensures start in visited + {node}
  {
    if start !in visited { assert (below + [(node, path)])[|below|] == (start, {}); }
  }

  lemma SplitLast<T>(s: seq<T>)
    requires s != []
    ensures s == s[..|s| - 1] + [s[|s| - 1]]
  {}

  /** What one turn of the search finds on top of the stack, and what it leaves. */
  lemma PopEntry(g: Graph, start: Node, visited: set<Node>, stack: seq<(Node, set<Node>)>,
                 paths: seq<seq<Node>>, size: map<Node, nat>)
    returns (paths': seq<seq<Node>>, size': map<Node, nat>)
    requires Searching(g, start, visited, stack, paths, size) && stack != []
    ensures var (node, path) := stack[|stack| - 1];
            && node in g && |paths| == |stack|
            && (node in path ==> Reaches(g, start, node) && OnCycle(g, node))
            && (node in visited && node !in path ==>
                  Searching(g, start, visited, stack[..|stack| - 1], paths', size'))
  {
    var (node, path) := stack[|stack| - 1];
    paths', size' := paths[..|paths| - 1], size;
    assert stack[|stack| - 1].1 == Members(paths[|stack| - 1]);
    if node in visited && node !in path {
      SplitLast(stack);
      SplitLast(paths);
      size' := SkipVisited(g, start, visited, node, path, paths[|paths| - 1], stack[..|stack| - 1], paths', size);
    }
  }

  lemma SearchStarts(g: Graph, start: Node)
    requires start in g
    ensures Searching(g, start, {}, [(start, {})], [[]], map[])
  {
    assert ReachesIn(g, start, start, 0);
  }

  lemma SearchEnds(g: Graph, start: Node, visited: set<Node>, paths: seq<seq<Node>>, size: map<Node, nat>)
    requires Searching(g, start, visited, [], paths, size)
    ensures Unfolding(g, size) && start in size
  {}

  /** A turn that visits a new node and has pushed its children. */
  lemma PushChildren(g: Graph, start: Node, visited: set<Node>, stack: seq<(Node, set<Node>)>,
                     paths: seq<seq<Node>>, size: map<Node, nat>, stack': seq<(Node, set<Node>)>)
    returns (paths': seq<seq<Node>>, size': map<Node, nat>)
    requires Closed(g) && Searching(g, start, visited, stack, paths, size) && |paths| == |stack| != 0
    requires stack[|stack| - 1].0 !in visited && stack[|stack| - 1].0 in g
    requires |stack'| == |stack| - 1 + |g[stack[|stack| - 1].0]| && stack[..|stack| - 1] <= stack'
    requires var (node, path) := stack[|stack| - 1];
             forall j :: 0 <= j < |g[node]| ==> stack'[|stack| - 1 + j] == (g[node][j], path + {node})
    ensures Searching(g, start, visited + {stack[|stack| - 1].0}, stack', paths', size')
  {
    hide Searching;
    var (node, path) := stack[|stack| - 1];
    SplitLast(stack);
    SplitLast(paths);
    paths', size' := VisitNew(g, start, visited, node, path, paths[|paths| - 1],
                              stack[..|stack| - 1], paths[..|paths| - 1], size, stack');
  }

  /** The depth-first cycle check: reports a node exactly when a cycle can be reached, and one on it. */
  method ValidateDag(g: Graph, start: Node) returns (cycleAt: Option<Node>, ghost size: map<Node, nat>)
    requires Closed(g) && start in g
    ensures cycleAt.Some? <==> exists n :: Reaches(g, start, n) && OnCycle(g, n)
    ensures cycleAt.Some? ==> Reaches(g, start, cycleAt.value) && OnCycle(g, cycleAt.value)
    ensures cycleAt.None? ==> Unfolding(g, size) && start in size
  {
    hide Searching, Unfolding;
    var visited: set<Node> := {};
    var stack: seq<(Node, set<Node>)> := [(start, {})];
    ghost var paths: seq<seq<Node>> := [[]];
    size := map[];
    SearchStarts(g, start);
    while stack != []
      invariant Searching(g, start, visited, stack, paths, size)
      decreases g.Keys - visited, |stack|
    {
      var (node, path) := stack[|stack| - 1];
      ghost var stack0 := stack;
      ghost var paths', size' := PopEntry(g, start, visited, stack, paths, size);
      if node in path {
        return Some(node), map[];
      }
      stack := stack[..|stack| - 1];
      if node !in visited {
        var newPath := path + {node};
        for i := 0 to |g[node]|
          invariant |stack| == |stack0| - 1 + i && stack0[..|stack0| - 1] <= stack
          invariant forall j :: 0 <= j < i ==> stack[|stack0| - 1 + j] == (g[node][j], newPath)
        {
          stack := stack + [(g[node][i], newPath)];
        }
        paths, size := PushChildren(g, start, visited, stack0, paths, size, stack);
        visited := visited + {node};
      } else {
        paths, size := paths', size';
      }
    }
    cycleAt := None;
    SearchEnds(g, start, visited, paths, size);
    UnfoldingHasNoCycle(g, size, start);
  }
}
