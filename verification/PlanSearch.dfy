/**
Decomposition and the search `_ao_star_search`.  Its priority queue only ever receives costs below
all it has received before, so it serves as a stack; `Explore` is that simpler depth-first search.
*/
module PlanSearch {
  import opened Graphs
  import opened Optional
  import opened Planner

  type Entry = (real, Node)

  /** How planning ends; `Crashed` is the key error of a resource that the pool does not name. */
  datatype Outcome = Found(plan: Plan) | NoPlan | Crashed(resource: Resource) | Circular(at: Node)

  // ---------------------------------------------------------------- decomposition

  function Fitting(p: Problem, cs: seq<Node>): seq<Node> {
    if cs == [] then []
    else Fitting(p, cs[..|cs| - 1]) + if p.fits(cs[|cs| - 1]) then [cs[|cs| - 1]] else []
  }

  function Singles(ns: seq<Node>): seq<seq<Node>> {
    if ns == [] then [] else Singles(ns[..|ns| - 1]) + [[ns[|ns| - 1]]]
  }

  /** An AND node offers all its fitting children at once, an OR node each of them alone. */
  function Options(p: Problem, n: Node): seq<seq<Node>>
    requires n in p.children
  {
    var fitting := Fitting(p, p.children[n]);
    match p.task(n).kind
    case AtomicNode => []
    case AndNode => if fitting == [] then [] else [fitting]
    case OrNode => Singles(fitting)
  }

  lemma FittingStep(p: Problem, cs: seq<Node>, i: nat)
    requires i < |cs|
    ensures Fitting(p, cs[..i + 1]) == Fitting(p, cs[..i]) + if p.fits(cs[i]) then [cs[i]] else []
    ensures Singles(Fitting(p, cs[..i + 1])) ==
            Singles(Fitting(p, cs[..i])) + if p.fits(cs[i]) then [[cs[i]]] else []
  {
    assert cs[..i + 1][..i] == cs[..i];
    var f := Fitting(p, cs[..i]);
    assert (f + [cs[i]])[..|f|] == f;
    assert f + [] == f && Singles(f) + [] == Singles(f);
  }

  /** The loops of `ANDNode.decompose` and `ORNode.decompose`. */
  method Decompose(p: Problem, n: Node) returns (options: seq<seq<Node>>)
    requires n in p.children && p.task(n).kind != AtomicNode
    ensures options == Options(p, n)
  {
    var children := p.children[n];
    var all: seq<Node> := [];
    options := [];
    for i := 0 to |children|
      invariant all == Fitting(p, children[..i]) && options == Singles(Fitting(p, children[..i]))
    {
      FittingStep(p, children, i);
      if p.fits(children[i]) {
        all := all + [children[i]];
        options := options + [[children[i]]];
      }
    }
    assert children[..|children|] == children;
    if p.task(n).kind == AndNode {
      options := if all == [] then [] else [all];
    }
  }

  lemma {:induction false} FittingCounts(p: Problem, cs: seq<Node>, c: Node)
    ensures multiset(Fitting(p, cs))[c] == if p.fits(c) then multiset(cs)[c] else 0
  {
    if cs != [] {
      FittingCounts(p, cs[..|cs| - 1], c);
      assert cs == cs[..|cs| - 1] + [cs[|cs| - 1]];
    }
  }

  /** Each fitting child is offered as often as it is a child, an unfitting one never; an AND node makes at
      most one option of them, an OR node options of one node each, and no option is empty. */
  lemma OptionsOffer(p: Problem, n: Node)
    requires n in p.children && p.task(n).kind != AtomicNode
    ensures forall c :: multiset(Offered(Options(p, n)))[c] == if p.fits(c) then multiset(p.children[n])[c] else 0
    ensures forall i :: 0 <= i < |Options(p, n)| ==> Options(p, n)[i] != []
    ensures p.task(n).kind == AndNode ==> |Options(p, n)| <= 1
    ensures p.task(n).kind == OrNode ==> forall i :: 0 <= i < |Options(p, n)| ==> |Options(p, n)[i]| == 1
  {
    hide Fitting, Singles, Offered;
    OfferedIsFitting(p, n);
    SinglesShape(Fitting(p, p.children[n]));
    forall c ensures multiset(Offered(Options(p, n)))[c] == if p.fits(c) then multiset(p.children[n])[c] else 0 {
      FittingCounts(p, p.children[n], c);
    }
  }

  lemma OfferedIsFitting(p: Problem, n: Node)
    requires n in p.children && p.task(n).kind != AtomicNode
    ensures Offered(Options(p, n)) == Fitting(p, p.children[n])
  {
    hide Fitting, Singles;
    var f := Fitting(p, p.children[n]);
    OfferedSingles(f);
    assert Offered([f][..0]) == [] && [] + f == f;
  }

  /** All nodes of all options, one option after the other. */
  function Offered(options: seq<seq<Node>>): seq<Node> {
    if options == [] then [] else Offered(options[..|options| - 1]) + options[|options| - 1]
  }

  lemma {:induction false} OfferedSingles(ns: seq<Node>)
    ensures Offered(Singles(ns)) == ns
  {
    if ns != [] {
      OfferedSingles(ns[..|ns| - 1]);
      var init := Singles(ns[..|ns| - 1]);
      assert (init + [[ns[|ns| - 1]]])[..|init|] == init;
    }
  }

  /** `at` lists, in order, the positions of `cs` that fit. */
  ghost predicate FittingPositions(p: Problem, cs: seq<Node>, at: seq<nat>) {
    && (forall i :: 0 <= i < |at| ==> at[i] < |cs| && p.fits(cs[at[i]]))
    && (forall i, j :: 0 <= i < j < |at| ==> at[i] < at[j])
    && (forall k: nat :: k < |cs| && p.fits(cs[k]) ==> k in at)
  }

  /** The children are offered in their own order. */
  lemma OfferedInOrder(p: Problem, n: Node) returns (at: seq<nat>)
    requires n in p.children && p.task(n).kind != AtomicNode
    ensures FittingPositions(p, p.children[n], at) && |Offered(Options(p, n))| == |at|
    ensures forall i :: 0 <= i < |at| ==> Offered(Options(p, n))[i] == p.children[n][at[i]]
  {
    hide Options, Offered;
    OfferedIsFitting(p, n);
    at := FittingInOrder(p, p.children[n]);
  }

  lemma {:induction false} FittingInOrder(p: Problem, cs: seq<Node>) returns (at: seq<nat>)
    ensures FittingPositions(p, cs, at) && |Fitting(p, cs)| == |at|
    ensures forall i :: 0 <= i < |at| ==> Fitting(p, cs)[i] == cs[at[i]]
  {
    at := [];
    if cs != [] {
      var k := |cs| - 1;
      var before := FittingInOrder(p, cs[..k]);
      at := before + if p.fits(cs[k]) then [k] else [];
      assert forall i :: 0 <= i < |before| ==> at[i] == before[i] && cs[..k][before[i]] == cs[before[i]];
      PositionsOneMore(p, cs, before, at);
    }
  }

  lemma PositionsOneMore(p: Problem, cs: seq<Node>, before: seq<nat>, at: seq<nat>)
    requires cs != [] && FittingPositions(p, cs[..|cs| - 1], before)
    requires at == before + if p.fits(cs[|cs| - 1]) then [|cs| - 1] else []
    ensures FittingPositions(p, cs, at)
  {
    forall k: nat | k < |cs| && p.fits(cs[k]) ensures k in at {
      if k < |cs| - 1 { assert cs[..|cs| - 1][k] == cs[k]; assert k in before; }
    }
  }

  function LastNode(option: seq<Node>): Node {
    if option == [] then 0 else option[|option| - 1]
  }

  // ---------------------------------------------------------------- the search as a stack

  /** The best plan so far and the entries still to expand, or the resource that stopped the search. */
  datatype Frontier = Frontier(best: Option<Plan>, stack: seq<Entry>) | Fault(resource: Resource)

  /** The test in the inner loop: the risk is allowed and the total cost below that of the best plan so far. */
  predicate Improves(p: Problem, base: real, plan: Plan, best: Option<Plan>) {
    plan.risk <= p.threshold && (best.None? || base + plan.cost < best.value.cost)
  }

  /** One option of a node reached at cost `base`: a strictly better one becomes the best and is pushed. */
  ghost function Consider(p: Problem, base: real, option: seq<Node>, best: Option<Plan>, stack: seq<Entry>): Frontier {
    match Evaluate(p, option)
    case Conflict(_) => Frontier(best, stack)
    case UnknownResource(r) => Fault(r)
    case Planned(plan) =>
      if !Improves(p, base, plan, best) then Frontier(best, stack)
      else Frontier(Some(plan.(cost := base + plan.cost)), stack + [(base + plan.cost, LastNode(option))])
  }

  ghost function Expand(p: Problem, base: real, options: seq<seq<Node>>, best: Option<Plan>, stack: seq<Entry>): Frontier {
    if options == [] then Frontier(best, stack)
    else
      match Expand(p, base, options[..|options| - 1], best, stack)
      case Fault(r) => Fault(r)
      case Frontier(b, s) => Consider(p, base, options[|options| - 1], b, s)
  }

  ghost function SizeOf(size: map<Node, nat>, n: Node): nat {
    if n in size then size[n] else 0
  }

  ghost function StackSize(size: map<Node, nat>, stack: seq<Entry>): nat {
    if stack == [] then 0 else StackSize(size, stack[..|stack| - 1]) + SizeOf(size, stack[|stack| - 1].1)
  }

  ghost function OptionsSize(size: map<Node, nat>, options: seq<seq<Node>>): nat {
    if options == [] then 0
    else OptionsSize(size, options[..|options| - 1]) + SizeOf(size, LastNode(options[|options| - 1]))
  }

  ghost predicate Sized(size: map<Node, nat>, stack: seq<Entry>) {
    forall i :: 0 <= i < |stack| ==> stack[i].1 in size
  }

  ghost predicate LastsSized(size: map<Node, nat>, options: seq<seq<Node>>) {
    forall i :: 0 <= i < |options| ==> options[i] != [] && LastNode(options[i]) in size
  }

  lemma {:induction false} FittingSize(p: Problem, size: map<Node, nat>, cs: seq<Node>)
    requires forall c :: c in cs ==> c in size
    ensures OptionsSize(size, Singles(Fitting(p, cs))) <= TotalSize(size, cs)
  {
    if cs == [] {
      assert Singles(Fitting(p, cs)) == [];
    } else {
      var init, last := cs[..|cs| - 1], cs[|cs| - 1];
      FittingSize(p, size, init);
      FittingStep(p, cs, |cs| - 1);
      assert cs[..|cs| - 1 + 1] == cs;
      hide Fitting, Singles, OptionsSize;
      var f := Singles(Fitting(p, init));
      OptionsSizeOneMore(size, f, last);
      assert f + [] == f;
    }
  }

  lemma OptionsSizeOneMore(size: map<Node, nat>, options: seq<seq<Node>>, n: Node)
    ensures OptionsSize(size, options + [[n]]) == OptionsSize(size, options) + SizeOf(size, n)
  {
    assert (options + [[n]])[..|options|] == options;
  }

  lemma {:induction false} SinglesShape(ns: seq<Node>)
    ensures |Singles(ns)| == |ns| && forall i :: 0 <= i < |ns| ==> Singles(ns)[i] == [ns[i]]
  {
    if ns != [] { SinglesShape(ns[..|ns| - 1]); }
  }

  /** What expanding a node can push is smaller, unfolded, than the node itself. */
  lemma OptionsShrink(p: Problem, size: map<Node, nat>, n: Node)
    requires Unfolding(p.children, size) && n in size
    ensures LastsSized(size, Options(p, n)) && OptionsSize(size, Options(p, n)) < size[n]
  {
    hide Fitting, Unfolding, OptionsSize, Singles;
    ChildrenSized(p.children, size, n);
    var cs := p.children[n];
    FittingSubset(p, cs);
    FittingSize(p, size, cs);
    SinglesShape(Fitting(p, cs));
    AllTogetherSize(size, Fitting(p, cs), cs);
  }

  lemma ChildrenSized(g: Graph, size: map<Node, nat>, n: Node)
    requires Unfolding(g, size) && n in size
    ensures n in g && (forall c :: c in g[n] ==> c in size) && TotalSize(size, g[n]) < size[n]
  {}

  lemma AllTogetherSize(size: map<Node, nat>, f: seq<Node>, cs: seq<Node>)
    requires forall c :: c in cs ==> c in size
    requires forall c :: c in f ==> c in cs
    ensures f != [] ==> OptionsSize(size, [f]) <= TotalSize(size, cs)
    ensures OptionsSize(size, []) == 0
  {
    if f != [] {
      assert OptionsSize(size, [f][..0]) == 0;
      assert f[|f| - 1] in f;
    }
  }

  lemma {:induction false} FittingSubset(p: Problem, cs: seq<Node>)
    ensures forall c :: c in Fitting(p, cs) ==> c in cs
  {
    if cs != [] { FittingSubset(p, cs[..|cs| - 1]); }
  }

  lemma {:induction false} ExpandSize(p: Problem, size: map<Node, nat>, base: real, options: seq<seq<Node>>,
                                      best: Option<Plan>, stack: seq<Entry>)
    requires Sized(size, stack) && LastsSized(size, options)
    requires Expand(p, base, options, best, stack).Frontier?
    ensures Sized(size, Expand(p, base, options, best, stack).stack)
    ensures StackSize(size, Expand(p, base, options, best, stack).stack) <=
            StackSize(size, stack) + OptionsSize(size, options)
  {
    hide Consider, Sized, StackSize;
    if options != [] {
      var init := options[..|options| - 1];
      ExpandSize(p, size, base, init, best, stack);
      var before := Expand(p, base, init, best, stack);
      ConsiderSize(p, size, base, options[|options| - 1], before.best, before.stack);
    }
  }

  lemma ConsiderSize(p: Problem, size: map<Node, nat>, base: real, option: seq<Node>, best: Option<Plan>,
                     stack: seq<Entry>)
    requires Sized(size, stack) && option != [] && LastNode(option) in size
    requires Consider(p, base, option, best, stack).Frontier?
    ensures Sized(size, Consider(p, base, option, best, stack).stack)
    ensures StackSize(size, Consider(p, base, option, best, stack).stack) <=
            StackSize(size, stack) + SizeOf(size, LastNode(option))
  {
    hide Evaluate;
    var after := Consider(p, base, option, best, stack).stack;
    if after != stack { assert after[..|after| - 1] == stack; }
  }

  /** Depth-first search over decompositions; it ends because what is left to unfold shrinks. */
  ghost function Explore(p: Problem, size: map<Node, nat>, stack: seq<Entry>, best: Option<Plan>): Outcome
    requires Unfolding(p.children, size) && Sized(size, stack)
    decreases StackSize(size, stack)
  {
    if stack == [] then
      if best.None? then NoPlan else Found(best.value)
    else
      var (base, n) := stack[|stack| - 1];
      var rest := stack[..|stack| - 1];
      OptionsShrink(p, size, n);
      var next := Expand(p, base, Options(p, n), best, rest);
      if next.Fault? then Crashed(next.resource)
      else
        ExpandSize(p, size, base, Options(p, n), best, rest);
        Explore(p, size, next.stack, next.best)
  }

  // ---------------------------------------------------------------- what is pushed

  /** The entries pushed while the options of a node are gone through, up to a key error if there is one. */
  ghost function PushedBy(p: Problem, base: real, options: seq<seq<Node>>, best: Option<Plan>): seq<Entry> {
    if options == [] then []
    else
      var init := options[..|options| - 1];
      match Expand(p, base, init, best, [])
      case Fault(_) => PushedBy(p, base, init, best)
      case Frontier(b, _) =>
        PushedBy(p, base, init, best) + NewEntries(Consider(p, base, options[|options| - 1], b, []))
  }

  ghost function NewEntries(next: Frontier): seq<Entry> {
    if next.Fault? then [] else next.stack
  }

  /** All entries ever pushed after the given stack, one turn of the search after the other. */
  ghost function AllPushed(p: Problem, size: map<Node, nat>, stack: seq<Entry>, best: Option<Plan>): seq<Entry>
    requires Unfolding(p.children, size) && Sized(size, stack)
    decreases StackSize(size, stack)
  {
    if stack == [] then []
    else
      var (base, n) := stack[|stack| - 1];
      var rest := stack[..|stack| - 1];
      OptionsShrink(p, size, n);
      var next := Expand(p, base, Options(p, n), best, rest);
      PushedBy(p, base, Options(p, n), best) +
      if next.Fault? then []
      else
        ExpandSize(p, size, base, Options(p, n), best, rest);
        AllPushed(p, size, next.stack, next.best)
  }

  ghost predicate Descending(stack: seq<Entry>) {
    forall i, j :: 0 <= i < j < |stack| ==> stack[i].0 > stack[j].0
  }

  ghost predicate AllBelow(entries: seq<Entry>, cost: real) {
    forall i :: 0 <= i < |entries| ==> entries[i].0 < cost
  }

  /** The entries descend, below the best plan before, and the last of them costs as much as the best after. */
  ghost predicate Descends(before: Option<Plan>, entries: seq<Entry>, after: Option<Plan>) {
    && Descending(entries)
    && (before.Some? ==> AllBelow(entries, before.value.cost))
    && (if entries == [] then after == before
        else after.Some? && after.value.cost == entries[|entries| - 1].0)
  }

  /** One more entry below the best plan keeps the entries descending. */
  lemma DescendsOneMore(before: Option<Plan>, entries: seq<Entry>, middle: Option<Plan>, entry: Entry, after: Plan)
    requires Descends(before, entries, middle) && (middle.Some? ==> entry.0 < middle.value.cost)
    requires after.cost == entry.0
    ensures Descends(before, entries + [entry], Some(after))
  {}

  /** Considering an option adds at most one entry, below the best plan, and the same on any stack. */
  ghost predicate Adds(before: Frontier, after: Frontier, alone: Frontier) {
    && before.Frontier? && (after.Fault? <==> alone.Fault?)
    && (after.Frontier? ==>
          && after.best == alone.best && after.stack == before.stack + alone.stack
          && (alone.stack == [] ==> alone.best == before.best)
          && (alone.stack != [] ==>
                && |alone.stack| == 1 && alone.best.Some? && alone.best.value.cost == alone.stack[0].0
                && (before.best.Some? ==> alone.stack[0].0 < before.best.value.cost)))
  }

  lemma ConsiderAdds(p: Problem, base: real, option: seq<Node>, best: Option<Plan>, stack: seq<Entry>)
    ensures Adds(Frontier(best, stack), Consider(p, base, option, best, stack), Consider(p, base, option, best, []))
  {
    hide Evaluate, LastNode;
  }

  /** `pushed` was pushed on the way from `stack` to `after`, and `alone` is where the same leads from no stack. */
  ghost predicate Pushes(best: Option<Plan>, stack: seq<Entry>, after: Frontier, alone: Frontier, pushed: seq<Entry>) {
    && (after.Fault? <==> alone.Fault?)
    && (after.Frontier? ==>
          && after.best == alone.best && after.stack == stack + pushed && Descends(best, pushed, after.best))
    && Descending(pushed) && (best.Some? ==> AllBelow(pushed, best.value.cost))
  }

  lemma PushesOneMore(best: Option<Plan>, stack: seq<Entry>, before: Frontier, alone: Frontier, pushed: seq<Entry>,
                      before': Frontier, alone': Frontier, added: Frontier)
    requires Pushes(best, stack, before, alone, pushed) && Adds(before, before', added) && Adds(alone, alone', added)
    ensures Pushes(best, stack, before', alone', pushed + NewEntries(added))
  {
    hide Descending, AllBelow;
    if added.Fault? || added.stack == [] {
      assert pushed + [] == pushed && stack + pushed + [] == stack + pushed;
    } else {
      DescendsOneMore(best, pushed, before.best, added.stack[0], added.best.value);
      assert added.stack == [added.stack[0]];
      assert stack + pushed + added.stack == stack + (pushed + added.stack);
    }
  }

  lemma PushesNothing(best: Option<Plan>, stack: seq<Entry>)
    ensures Pushes(best, stack, Frontier(best, stack), Frontier(best, []), [])
  {
    assert stack + [] == stack;
  }

  /** The options of a node push entries that descend from the best plan before to the best plan after, on top
      of whatever is waiting. */
  lemma {:induction false} PushedByDescends(p: Problem, base: real, options: seq<seq<Node>>, best: Option<Plan>,
                                            stack: seq<Entry>)
    ensures Pushes(best, stack, Expand(p, base, options, best, stack), Expand(p, base, options, best, []),
                   PushedBy(p, base, options, best))
  {
    hide Consider, Pushes, Adds;
    if options == [] {
      PushesNothing(best, stack);
    } else {
      var init, last := options[..|options| - 1], options[|options| - 1];
      PushedByDescends(p, base, init, best, stack);
      var before, alone := Expand(p, base, init, best, stack), Expand(p, base, init, best, []);
      PushesSame(best, stack, before, alone, PushedBy(p, base, init, best));
      if before.Frontier? {
        ConsiderAdds(p, base, last, before.best, before.stack);
        ConsiderAdds(p, base, last, alone.best, alone.stack);
        PushesOneMore(best, stack, before, alone, PushedBy(p, base, init, best),
                      Consider(p, base, last, before.best, before.stack),
                      Consider(p, base, last, alone.best, alone.stack), Consider(p, base, last, alone.best, []));
      }
    }
  }

  lemma PushesSame(best: Option<Plan>, stack: seq<Entry>, after: Frontier, alone: Frontier, pushed: seq<Entry>)
    requires Pushes(best, stack, after, alone, pushed)
    ensures after.Fault? <==> alone.Fault?
    ensures after.Frontier? ==> after.best == alone.best
  {}

  /** A descending piece followed by one that is below its last entry descends. */
  lemma JoinDescending(a: seq<Entry>, b: seq<Entry>)
    requires Descending(a) && Descending(b) && (a != [] ==> AllBelow(b, a[|a| - 1].0))
    ensures Descending(a + b)
  {
    forall i, j | 0 <= i < j < |a + b| ensures (a + b)[i].0 > (a + b)[j].0 {
      if i < |a| <= j { assert a[i].0 >= a[|a| - 1].0; }
    }
  }

  /** For arbitrary costs, all costs pushed over the whole search strictly decrease. */
  lemma {:induction false} AllPushedDescends(p: Problem, size: map<Node, nat>, stack: seq<Entry>, best: Option<Plan>)
    requires Unfolding(p.children, size) && Sized(size, stack)
    ensures Descending(AllPushed(p, size, stack, best))
    ensures best.Some? ==> AllBelow(AllPushed(p, size, stack, best), best.value.cost)
    decreases StackSize(size, stack)
  {
    hide Unfolding, Expand, Options, PushedBy, Descending;
    if stack == [] {
      NothingDescends();
    } else {
      var (base, n) := stack[|stack| - 1];
      var rest := stack[..|stack| - 1];
      ExploreStep(p, size, stack, best);
      PushedByDescends(p, base, Options(p, n), best, rest);
      var next, first := Expand(p, base, Options(p, n), best, rest), PushedBy(p, base, Options(p, n), best);
      if next.Fault? {
        assert first + [] == first;
      } else {
        AllPushedDescends(p, size, next.stack, next.best);
        var later := AllPushed(p, size, next.stack, next.best);
        JoinDescending(first, later);
        if best.Some? { BelowJoin(first, later, best.value.cost); }
      }
    }
  }

  lemma NothingDescends()
    ensures Descending([])
  {}

  lemma BelowJoin(a: seq<Entry>, b: seq<Entry>, cost: real)
    requires AllBelow(a, cost) && AllBelow(b, if a == [] then cost else a[|a| - 1].0)
    ensures AllBelow(a + b, cost)
  {}

  lemma PushedByOne(p: Problem, base: real, options: seq<seq<Node>>, best: Option<Plan>, stack: seq<Entry>, i: nat)
    requires i < |options| && Expand(p, base, options[..i], best, stack).Frontier?
    ensures var b := Expand(p, base, options[..i], best, stack).best;
            PushedBy(p, base, options[..i + 1], best) ==
            PushedBy(p, base, options[..i], best) + NewEntries(Consider(p, base, options[i], b, []))
  {
    hide Expand, Consider;
    assert options[..i + 1][..i] == options[..i];
    PushedByDescends(p, base, options[..i], best, stack);
  }

  lemma {:induction false} PushedByStays(p: Problem, base: real, options: seq<seq<Node>>, best: Option<Plan>,
                                             stack: seq<Entry>, i: nat)
    requires i <= |options| && Expand(p, base, options[..i], best, stack).Fault?
    ensures PushedBy(p, base, options, best) == PushedBy(p, base, options[..i], best)
  {
    hide Expand, Consider;
    if i == |options| {
      assert options[..i] == options;
    } else {
      var init := options[..|options| - 1];
      assert init[..i] == options[..i];
      PushedByStays(p, base, init, best, stack, i);
      FaultStays(p, base, init, best, stack, i);
      PushedByDescends(p, base, init, best, stack);
    }
  }

  lemma AllPushedStep(p: Problem, size: map<Node, nat>, stack: seq<Entry>, best: Option<Plan>)
    requires Unfolding(p.children, size) && Sized(size, stack) && stack != []
    ensures stack[|stack| - 1].1 in p.children
    ensures var (base, n) := stack[|stack| - 1];
            var next := Expand(p, base, Options(p, n), best, stack[..|stack| - 1]);
            var more := PushedBy(p, base, Options(p, n), best);
            && (next.Fault? ==> AllPushed(p, size, stack, best) == more)
            && (next.Frontier? ==>
                  && Sized(size, next.stack)
                  && AllPushed(p, size, stack, best) == more + AllPushed(p, size, next.stack, next.best))
  {
    hide Unfolding, Expand, PushedBy, Options, Sized, StackSize, LastsSized, OptionsSize;
    ExploreStep(p, size, stack, best);
    var more := PushedBy(p, stack[|stack| - 1].0, Options(p, stack[|stack| - 1].1), best);
    assert more + [] == more;
  }

  // ---------------------------------------------------------------- the search with a heap

  /** Waiting entries cost at least as much as the best plan, each less than those pushed before it. */
  ghost predicate Ordered(best: Option<Plan>, stack: seq<Entry>) {
    && Descending(stack)
    && (best.None? ==> stack == [])
    && (best.Some? ==> forall i :: 0 <= i < |stack| ==> best.value.cost <= stack[i].0)
  }

  /** Every cost pushed is below all costs waiting. */
  lemma ConsiderOrdered(p: Problem, base: real, option: seq<Node>, best: Option<Plan>, stack: seq<Entry>)
    requires Ordered(best, stack) && Consider(p, base, option, best, stack).Frontier?
    ensures Ordered(Consider(p, base, option, best, stack).best, Consider(p, base, option, best, stack).stack)
    ensures var pushed := Consider(p, base, option, best, stack).stack;
            pushed == stack || (|pushed| == |stack| + 1 && forall e :: e in stack ==> pushed[|stack|].0 < e.0)
  {
    hide Evaluate, LastNode;
  }

  ghost predicate NoTies(heap: seq<Entry>) {
    forall i, j :: 0 <= i < j < |heap| ==> heap[i].0 != heap[j].0
  }

  /** `heappush`: a cost already present would have task nodes compared, which they cannot be. */
  method HeapPush(heap: seq<Entry>, entry: Entry) returns (heap': seq<Entry>)
    requires forall e :: e in heap ==> e.0 != entry.0
    ensures multiset(heap') == multiset(heap) + multiset{entry}
  {
    heap' := heap + [entry];
  }

  /** `heappop`: the entry of least cost, which is unique as no two entries tie. */
  method HeapPop(heap: seq<Entry>) returns (least: Entry, heap': seq<Entry>)
    requires heap != [] && NoTies(heap)
    ensures least in heap && (forall e :: e in heap ==> e == least || least.0 < e.0)
    ensures multiset(heap) == multiset(heap') + multiset{least}
  {
    var k := 0;
    for i := 1 to |heap|
      invariant 0 <= k < |heap|
      invariant forall j :: 0 <= j < i ==> heap[k].0 <= heap[j].0
    {
      if heap[i].0 < heap[k].0 { k := i; }
    }
    least, heap' := heap[k], heap[..k] + heap[k + 1..];
    assert heap == heap[..k] + [least] + heap[k + 1..];
  }

  lemma {:induction false} DescendingOnce(stack: seq<Entry>, e: Entry)
    requires Descending(stack)
    ensures multiset(stack)[e] <= 1
  {
    if stack != [] {
      var init, last := stack[..|stack| - 1], stack[|stack| - 1];
      assert stack == init + [last];
      DescendingOnce(init, e);
      if e == last { assert e !in init; }
    }
  }

  lemma SameMembers(a: seq<Entry>, b: seq<Entry>, e: Entry)
    requires multiset(a) == multiset(b)
    ensures e in a <==> e in b
  {
    assert e in a <==> e in multiset(a);
    assert e in b <==> e in multiset(b);
  }

  lemma HeapHasNoTies(heap: seq<Entry>, stack: seq<Entry>)
    requires multiset(heap) == multiset(stack) && Descending(stack)
    ensures NoTies(heap)
  {
    forall i, j | 0 <= i < j < |heap| ensures heap[i].0 != heap[j].0 {
      if heap[i].0 == heap[j].0 {
        SameMembers(heap, stack, heap[i]);
        SameMembers(heap, stack, heap[j]);
        var e := heap[i];
        assert heap[j] == e;
        assert heap == heap[..i] + [e] + heap[i + 1..j] + [e] + heap[j + 1..];
        assert multiset(heap)[e] >= 2;
        DescendingOnce(stack, e);
      }
    }
  }

  lemma TopSplits(stack: seq<Entry>)
    requires stack != []
    ensures multiset(stack) == multiset(stack[..|stack| - 1]) + multiset{stack[|stack| - 1]}
  {
    assert stack == stack[..|stack| - 1] + [stack[|stack| - 1]];
  }

  /** The least entry of the heap is the one pushed last. */
  lemma LeastIsTop(heap: seq<Entry>, stack: seq<Entry>, least: Entry, heap': seq<Entry>)
    requires multiset(heap) == multiset(stack) && Descending(stack) && heap != []
    requires least in heap && (forall e :: e in heap ==> e == least || least.0 < e.0)
    requires multiset(heap) == multiset(heap') + multiset{least}
    ensures stack != [] && least == stack[|stack| - 1] && multiset(heap') == multiset(stack[..|stack| - 1])
  {
    SameMembers(heap, stack, least);
    var top := stack[|stack| - 1];
    SameMembers(heap, stack, top);
    TopSplits(stack);
    assert multiset(heap') == multiset(heap) - multiset{least};
  }

  lemma ExpandOne(p: Problem, base: real, options: seq<seq<Node>>, best: Option<Plan>, stack: seq<Entry>, i: nat)
    requires i < |options| && Expand(p, base, options[..i], best, stack).Frontier?
    ensures var before := Expand(p, base, options[..i], best, stack);
            Expand(p, base, options[..i + 1], best, stack) == Consider(p, base, options[i], before.best, before.stack)
  {
    assert options[..i + 1][..i] == options[..i];
  }

  lemma ConsiderBy(p: Problem, base: real, option: seq<Node>, best: Option<Plan>, stack: seq<Entry>, e: Evaluation)
    requires e == Evaluate(p, option) && option != []
    ensures e.UnknownResource? ==> Consider(p, base, option, best, stack) == Fault(e.resource)
    ensures e.Conflict? ==> Consider(p, base, option, best, stack) == Frontier(best, stack)
    ensures e.Planned? ==>
              Consider(p, base, option, best, stack) ==
              if Improves(p, base, e.plan, best)
              then Frontier(Some(e.plan.(cost := base + e.plan.cost)),
                            stack + [(base + e.plan.cost, option[|option| - 1])])
              else Frontier(best, stack)
  {
    hide Evaluate;
  }

  /** What one more option does to the best plan, to what is waiting and to what was pushed. */
  lemma OptionStep(p: Problem, base: real, options: seq<seq<Node>>, best: Option<Plan>, stack: seq<Entry>, i: nat,
                   e: Evaluation, best': Option<Plan>, stack': seq<Entry>, heap': seq<Entry>)
    requires i < |options| && options[i] != [] && e == Evaluate(p, options[i])
    requires Expand(p, base, options[..i], best, stack) == Frontier(best', stack')
    requires Ordered(best', stack') && multiset(heap') == multiset(stack')
    ensures e.UnknownResource? ==>
              && Expand(p, base, options, best, stack) == Fault(e.resource)
              && PushedBy(p, base, options, best) == PushedBy(p, base, options[..i], best)
    ensures e.Planned? && Improves(p, base, e.plan, best') ==>
              var entry := (base + e.plan.cost, options[i][|options[i]| - 1]);
              var better := Some(e.plan.(cost := entry.0));
              && Expand(p, base, options[..i + 1], best, stack) == Frontier(better, stack' + [entry])
              && PushedBy(p, base, options[..i + 1], best) == PushedBy(p, base, options[..i], best) + [entry]
              && Ordered(better, stack' + [entry])
              && (forall x :: x in heap' ==> x.0 != entry.0)
              && multiset(stack' + [entry]) == multiset(stack') + multiset{entry}
    ensures e.Conflict? || (e.Planned? && !Improves(p, base, e.plan, best')) ==>
              && Expand(p, base, options[..i + 1], best, stack) == Frontier(best', stack')
              && PushedBy(p, base, options[..i + 1], best) == PushedBy(p, base, options[..i], best)
  {
    hide Expand, PushedBy, Evaluate, Consider, Ordered;
    ExpandOne(p, base, options, best, stack, i);
    PushedByOne(p, base, options, best, stack, i);
    ConsiderHeap(p, base, options[i], best', stack', heap');
    ConsiderBy(p, base, options[i], best', stack', e);
    ConsiderBy(p, base, options[i], best', [], e);
    var pushed := PushedBy(p, base, options[..i], best);
    assert pushed + [] == pushed;
    if e.UnknownResource? {
      FaultStays(p, base, options, best, stack, i + 1);
      PushedByStays(p, base, options, best, stack, i + 1);
    } else if e.Planned? && Improves(p, base, e.plan, best') {
      PushOne(stack', pushed, (base + e.plan.cost, options[i][|options[i]| - 1]));
    }
  }

  lemma PushOne(stack: seq<Entry>, pushed: seq<Entry>, entry: Entry)
    ensures multiset(stack + [entry]) == multiset(stack) + multiset{entry}
    ensures pushed + ([] + [entry]) == pushed + [entry] && (stack + [entry])[|stack|] == entry
  {}

  /** The inner loop of the search: all options of one node, reached at cost `base`. */
  method ExpandNode(p: Problem, base: real, options: seq<seq<Node>>, best: Option<Plan>, heap: seq<Entry>,
                    ghost stack: seq<Entry>)
    returns (fault: Option<Resource>, best': Option<Plan>, heap': seq<Entry>, ghost pushed: seq<Entry>)
    requires multiset(heap) == multiset(stack) && Ordered(best, stack)
    requires forall i :: 0 <= i < |options| ==> options[i] != []
    ensures var next := Expand(p, base, options, best, stack);
            && fault == (if next.Fault? then Some(next.resource) else None)
            && (next.Frontier? ==>
                  best' == next.best && multiset(heap') == multiset(next.stack) && Ordered(next.best, next.stack))
    ensures pushed == PushedBy(p, base, options, best)
  {
    hide Ordered, Expand, Evaluate, PushedBy;
    best', heap', pushed := best, heap, [];
    ghost var stack' := stack;
    ExpandNone(p, base, options[..0], best, stack);
    for i := 0 to |options|
      invariant multiset(heap') == multiset(stack') && Ordered(best', stack')
      invariant Expand(p, base, options[..i], best, stack) == Frontier(best', stack')
      invariant pushed == PushedBy(p, base, options[..i], best)
    {
      var e := EvaluateOption(p, options[i]);
      OptionStep(p, base, options, best, stack, i, e, best', stack', heap');
      if e.UnknownResource? {
        fault := Some(e.resource);
        return;
      }
      if e.Planned? && Improves(p, base, e.plan, best') {
        var entry := (base + e.plan.cost, options[i][|options[i]| - 1]);
        best' := Some(e.plan.(cost := entry.0));
        stack' := stack' + [entry];
        heap' := HeapPush(heap', entry);
        pushed := pushed + [entry];
      }
    }
    assert options[..|options|] == options;
    fault := None;
  }

  /** What is left of the search goes on as the whole search would, and pushes the rest of what it pushes. */
  ghost predicate OnTrack(p: Problem, size: map<Node, nat>, root: Node, stack: seq<Entry>, best: Option<Plan>,
                          pushed: seq<Entry>)
    requires Unfolding(p.children, size) && root in size
  {
    && Sized(size, stack)
    && Explore(p, size, stack, best) == Explore(p, size, [(0.0, root)], None)
    && pushed + AllPushed(p, size, stack, best) == AllPushed(p, size, [(0.0, root)], None)
  }

  lemma TrackStart(p: Problem, size: map<Node, nat>, root: Node)
    requires Unfolding(p.children, size) && root in size
    ensures OnTrack(p, size, root, [(0.0, root)], None, [])
    ensures Descending(AllPushed(p, size, [(0.0, root)], None))
  {
    hide Unfolding, Explore, AllPushed, Descending;
    AllPushedDescends(p, size, [(0.0, root)], None);
    var all := AllPushed(p, size, [(0.0, root)], None);
    assert [] + all == all;
  }

  /** One turn of the depth-first search, as the heap search takes it. */
  lemma TrackStep(p: Problem, size: map<Node, nat>, root: Node, stack: seq<Entry>, best: Option<Plan>,
                  pushed: seq<Entry>)
    requires Unfolding(p.children, size) && root in size && OnTrack(p, size, root, stack, best, pushed) && stack != []
    ensures stack[|stack| - 1].1 in p.children
    ensures var (base, n) := stack[|stack| - 1];
            var rest := stack[..|stack| - 1];
            var next, more := Expand(p, base, Options(p, n), best, rest), PushedBy(p, base, Options(p, n), best);
            && LastsSized(size, Options(p, n))
            && (p.task(n).kind.AtomicNode? ==> next == Frontier(best, rest) && pushed + more == pushed)
            && (next.Fault? ==>
                  && Explore(p, size, [(0.0, root)], None) == Crashed(next.resource)
                  && AllPushed(p, size, [(0.0, root)], None) == pushed + more)
            && (next.Frontier? ==>
                  && StackSize(size, next.stack) < StackSize(size, stack)
                  && OnTrack(p, size, root, next.stack, next.best, pushed + more))
  {
    hide Unfolding, Expand, PushedBy, Explore, AllPushed, Sized, StackSize;
    ExploreStep(p, size, stack, best);
    AllPushedStep(p, size, stack, best);
    var (base, n) := stack[|stack| - 1];
    var next := Expand(p, base, Options(p, n), best, stack[..|stack| - 1]);
    var more := PushedBy(p, base, Options(p, n), best);
    if p.task(n).kind.AtomicNode? { ExpandNone(p, base, Options(p, n), best, []); }
    hide Options;
    assert pushed + [] == pushed;
    if next.Frontier? { Regroup(pushed, more, AllPushed(p, size, next.stack, next.best)); }
  }

  lemma Regroup(a: seq<Entry>, b: seq<Entry>, c: seq<Entry>)
    ensures a + (b + c) == a + b + c
  {}

  lemma TrackEnd(p: Problem, size: map<Node, nat>, root: Node, stack: seq<Entry>, best: Option<Plan>,
                 pushed: seq<Entry>)
    requires Unfolding(p.children, size) && root in size && OnTrack(p, size, root, stack, best, pushed)
    requires |multiset(stack)| == 0
    ensures Explore(p, size, [(0.0, root)], None) == if best.None? then NoPlan else Found(best.value)
    ensures AllPushed(p, size, [(0.0, root)], None) == pushed
  {
    ExploreDone(p, size, stack, best);
    assert |stack| == |multiset(stack)|;
  }

  /** The heap search computes what the depth-first search does, for arbitrary costs, pushes the same entries
      in the same order, each below all pushed before it, and never ties. */
  method Search(p: Problem, root: Node, ghost size: map<Node, nat>) returns (r: Outcome, ghost pushed: seq<Entry>)
    requires Unfolding(p.children, size) && root in size
    ensures r == Explore(p, size, [(0.0, root)], None)
    ensures pushed == AllPushed(p, size, [(0.0, root)], None) && Descending(pushed)
  {
    hide Unfolding, Expand, Options, Explore, StackSize, AllPushed, PushedBy, OnTrack;
    var heap: seq<Entry> := [(0.0, root)];
    var best: Option<Plan> := None;
    ghost var stack: seq<Entry> := heap;
    pushed := [];
    TrackStart(p, size, root);
    while heap != []
      invariant multiset(heap) == multiset(stack) && Descending(stack)
      invariant if best.None? then |stack| <= 1 else Ordered(best, stack)
      invariant OnTrack(p, size, root, stack, best, pushed)
      decreases StackSize(size, stack)
    {
      HeapHasNoTies(heap, stack);
      var entry, heap' := HeapPop(heap);
      LeastIsTop(heap, stack, entry, heap');
      var (base, n) := entry;
      heap := heap';
      ghost var rest := stack[..|stack| - 1];
      TrackStep(p, size, root, stack, best, pushed);
      if p.task(n).kind == AtomicNode {
        stack := rest;
        continue;
      }
      var options := Decompose(p, n);
      RestOrdered(best, stack);
      var fault;
      ghost var next := Expand(p, base, options, best, rest);
      ghost var more;
      fault, best, heap, more := ExpandNode(p, base, options, best, heap, rest);
      pushed := pushed + more;
      if fault.Some? {
        return Crashed(fault.value), pushed;
      }
      stack := next.stack;
    }
    TrackEnd(p, size, root, stack, best, pushed);
    r := if best.None? then NoPlan else Found(best.value);
  }

  lemma RestOrdered(best: Option<Plan>, stack: seq<Entry>)
    requires stack != [] && if best.None? then |stack| <= 1 else Ordered(best, stack)
    ensures Ordered(best, stack[..|stack| - 1])
  {}

  lemma ExploreDone(p: Problem, size: map<Node, nat>, stack: seq<Entry>, best: Option<Plan>)
    requires Unfolding(p.children, size) && |multiset(stack)| == 0
    ensures Explore(p, size, stack, best) == if best.None? then NoPlan else Found(best.value)
  {
    assert |stack| == |multiset(stack)|;
  }

  lemma ExpandNone(p: Problem, base: real, options: seq<seq<Node>>, best: Option<Plan>, stack: seq<Entry>)
    requires options == []
    ensures Expand(p, base, options, best, stack) == Frontier(best, stack) && PushedBy(p, base, options, best) == []
  {}

  /** One turn of the depth-first search, as the heap search takes it. */
  lemma ExploreStep(p: Problem, size: map<Node, nat>, stack: seq<Entry>, best: Option<Plan>)
    requires Unfolding(p.children, size) && Sized(size, stack) && stack != []
    ensures stack[|stack| - 1].1 in p.children
    ensures var (base, n) := stack[|stack| - 1];
            var rest := stack[..|stack| - 1];
            var next := Expand(p, base, Options(p, n), best, rest);
            && LastsSized(size, Options(p, n))
            && (p.task(n).kind.AtomicNode? ==> next == Frontier(best, rest))
            && (next.Fault? ==> Explore(p, size, stack, best) == Crashed(next.resource))
            && (next.Frontier? ==>
                  && Sized(size, next.stack) && StackSize(size, next.stack) < StackSize(size, stack)
                  && Explore(p, size, stack, best) == Explore(p, size, next.stack, next.best))
  {
    var (base, n) := stack[|stack| - 1];
    var rest := stack[..|stack| - 1];
    OptionsShrink(p, size, n);
    if Expand(p, base, Options(p, n), best, rest).Frontier? {
      ExpandSize(p, size, base, Options(p, n), best, rest);
    }
  }

  lemma ConsiderHeap(p: Problem, base: real, option: seq<Node>, best: Option<Plan>, stack: seq<Entry>, heap: seq<Entry>)
    requires Ordered(best, stack) && multiset(heap) == multiset(stack)
    ensures var next := Consider(p, base, option, best, stack);
            next.Frontier? ==>
              && Ordered(next.best, next.stack)
              && (|next.stack| > |stack| ==> forall e :: e in heap ==> e.0 != next.stack[|stack|].0)
  {
    var next := Consider(p, base, option, best, stack);
    if next.Frontier? {
      ConsiderOrdered(p, base, option, best, stack);
      forall e | e in heap ensures e in stack { SameMembers(heap, stack, e); }
    }
  }

  lemma {:induction false} FaultStays(p: Problem, base: real, options: seq<seq<Node>>, best: Option<Plan>,
                                      stack: seq<Entry>, i: nat)
    requires i <= |options| && Expand(p, base, options[..i], best, stack).Fault?
    ensures Expand(p, base, options, best, stack) == Expand(p, base, options[..i], best, stack)
  {
    if i == |options| {
      assert options[..i] == options;
    } else {
      assert options[..|options| - 1][..i] == options[..i];
      FaultStays(p, base, options[..|options| - 1], best, stack, i);
    }
  }
}
