/**
What the planner's search finds: the exact condition, for arbitrary costs and resources, under which it
returns the first cheapest admissible option of the root, and `generate_plan` as a whole.
*/
module PlanGuarantees {
  import opened Graphs
  import opened Optional
  import opened TaskGraph
  import opened Planner
  import opened PlanSearch

  ghost predicate Admissible(p: Problem, option: seq<Node>) {
    Evaluate(p, option).Planned? && Evaluate(p, option).plan.risk <= p.threshold
  }

  /** Option `i` is admissible, none is cheaper and none before it is as cheap. */
  ghost predicate FirstCheapest(p: Problem, options: seq<seq<Node>>, i: nat) {
    && i < |options| && Admissible(p, options[i])
    && (forall j :: 0 <= j < |options| && Admissible(p, options[j]) ==>
                      && Cost(p, options[i]) <= Cost(p, options[j])
                      && (j < i ==> Cost(p, options[i]) < Cost(p, options[j])))
  }

  /** Evaluating the option ends in a key error. */
  ghost predicate Unknown(p: Problem, option: seq<Node>) {
    Evaluate(p, option).UnknownResource?
  }

  ghost predicate AllKnown(p: Problem, options: seq<seq<Node>>) {
    forall i :: 0 <= i < |options| ==> !Unknown(p, options[i])
  }

  lemma AllKnownSplits(p: Problem, options: seq<seq<Node>>)
    requires options != []
    ensures AllKnown(p, options) <==> AllKnown(p, options[..|options| - 1]) && !Unknown(p, options[|options| - 1])
  {
    hide Unknown;
    assert forall i :: 0 <= i < |options| - 1 ==> options[..|options| - 1][i] == options[i];
  }

  lemma PlannedCost(p: Problem, option: seq<Node>)
    ensures Evaluate(p, option).Planned? ==> Evaluate(p, option).plan.cost == Cost(p, option)
  {}

  // ---------------------------------------------------------------- the options of the root

  /** `best` is the first cheapest of the options, which is at `i`, or there is none. */
  ghost predicate BestOf(p: Problem, options: seq<seq<Node>>, i: nat, best: Option<Plan>) {
    if best.None? then forall j :: 0 <= j < |options| ==> !Admissible(p, options[j])
    else FirstCheapest(p, options, i) && Evaluate(p, options[i]).plan == best.value
  }

  lemma BestOfOneMore(p: Problem, options: seq<seq<Node>>, last: seq<Node>, i: nat, best: Option<Plan>, stack: seq<Entry>)
    returns (i': nat)
    requires BestOf(p, options, i, best) && !Evaluate(p, last).UnknownResource?
    ensures BestOf(p, options + [last], i', Consider(p, 0.0, last, best, stack).best)
  {
    PlannedCost(p, last);
    if best.Some? { PlannedCost(p, options[i]); }
    hide Evaluate, Cost;
    var all, next := options + [last], Consider(p, 0.0, last, best, stack).best;
    assert all[|options|] == last && forall j :: 0 <= j < |options| ==> all[j] == options[j];
    i' := if next == best then i else |options|;
  }

  /** Option `i` is admissible and strictly cheaper than every admissible option before it. */
  ghost predicate Record(p: Problem, options: seq<seq<Node>>, i: nat) {
    && i < |options| && Admissible(p, options[i])
    && forall j :: 0 <= j < i && Admissible(p, options[j]) ==> Cost(p, options[i]) < Cost(p, options[j])
  }

  /** The heap entry made for option `i` of the root. */
  ghost function EntryOf(p: Problem, options: seq<seq<Node>>, i: nat): Entry
    requires i < |options|
  {
    (Cost(p, options[i]), LastNode(options[i]))
  }

  /** The stack holds an entry for each record among the options and no other entry. */
  ghost predicate HoldsRecords(p: Problem, options: seq<seq<Node>>, stack: seq<Entry>) {
    && (forall i: nat :: Record(p, options, i) ==> EntryOf(p, options, i) in stack)
    && (forall e :: e in stack ==> exists i: nat :: Record(p, options, i) && EntryOf(p, options, i) == e)
  }

  /** One more option is a record exactly if it gets below the best plan so far. */
  lemma LastRecord(p: Problem, options: seq<seq<Node>>, last: seq<Node>, i: nat, best: Option<Plan>)
    requires BestOf(p, options, i, best)
    ensures Record(p, options + [last], |options|) <==>
            Admissible(p, last) && (best.None? || Cost(p, last) < best.value.cost)
    ensures forall j: nat :: j < |options| ==> (Record(p, options + [last], j) <==> Record(p, options, j))
  {
    if best.Some? { PlannedCost(p, options[i]); }
    hide Evaluate, Cost;
    var all := options + [last];
    assert all[|options|] == last && forall j :: 0 <= j < |options| ==> all[j] == options[j];
  }

  lemma HoldsOneMore(p: Problem, options: seq<seq<Node>>, last: seq<Node>, i: nat, best: Option<Plan>, stack: seq<Entry>)
    requires BestOf(p, options, i, best) && HoldsRecords(p, options, stack) && !Unknown(p, last)
    ensures HoldsRecords(p, options + [last], Consider(p, 0.0, last, best, stack).stack)
  {
    LastRecord(p, options, last, i, best);
    PlannedCost(p, last);
    var all, n := options + [last], |options|;
    var stack' := Consider(p, 0.0, last, best, stack).stack;
    hide Cost, BestOf, LastNode;
    assert all[n] == last && forall j :: 0 <= j < n ==> all[j] == options[j];
    assert forall j: nat :: j < n ==> EntryOf(p, all, j) == EntryOf(p, options, j);
    if Record(p, all, n) {
      assert stack' == stack + [EntryOf(p, all, n)];
    } else {
      assert stack' == stack;
    }
    hide Evaluate, Consider, EntryOf, Record;
    RecordsCarry(p, options, all, stack, stack');
  }

  lemma RecordsCarry(p: Problem, options: seq<seq<Node>>, all: seq<seq<Node>>, stack: seq<Entry>, stack': seq<Entry>)
    requires |all| == |options| + 1 && HoldsRecords(p, options, stack)
    requires forall j: nat :: j < |options| ==> (Record(p, all, j) <==> Record(p, options, j))
    requires forall j: nat :: j < |options| ==> EntryOf(p, all, j) == EntryOf(p, options, j)
    requires stack' == if Record(p, all, |options|) then stack + [EntryOf(p, all, |options|)] else stack
    ensures HoldsRecords(p, all, stack')
  {
    forall e | e in stack' ensures exists i: nat :: Record(p, all, i) && EntryOf(p, all, i) == e {
      if e in stack {
        var i: nat :| Record(p, options, i) && EntryOf(p, options, i) == e;
        assert Record(p, all, i) && EntryOf(p, all, i) == e;
      }
    }
    forall i: nat | Record(p, all, i) ensures EntryOf(p, all, i) in stack' {
      if i < |options| { assert EntryOf(p, options, i) in stack; }
    }
  }

  /** The root's options leave the first cheapest as the best plan and their records on the stack; an option
      that ends in a key error ends the search. */
  lemma {:induction false} ExpandRoot(p: Problem, options: seq<seq<Node>>) returns (i: nat)
    ensures var next := Expand(p, 0.0, options, None, []);
            if AllKnown(p, options) then
              && next.Frontier? && Ordered(next.best, next.stack)
              && BestOf(p, options, i, next.best) && HoldsRecords(p, options, next.stack)
            else next.Fault?
  {
    hide AllKnown, Evaluate, HoldsRecords, Ordered, BestOf, Consider;
    i := 0;
    if options == [] {
      RootNone(p, options);
    } else {
      var init, last := options[..|options| - 1], options[|options| - 1];
      i := ExpandRoot(p, init);
      AllKnownSplits(p, options);
      var before := Expand(p, 0.0, init, None, []);
      ConsiderFaults(p, 0.0, last, before);
      assert init + [last] == options;
      if AllKnown(p, options) {
        ConsiderOrdered(p, 0.0, last, before.best, before.stack);
        HoldsOneMore(p, init, last, i, before.best, before.stack);
        i := BestOfOneMore(p, init, last, i, before.best, before.stack);
      }
    }
  }

  lemma RootNone(p: Problem, options: seq<seq<Node>>)
    requires options == []
    ensures AllKnown(p, options) && Ordered(None, []) && BestOf(p, options, 0, None) && HoldsRecords(p, options, [])
  {}

  lemma ConsiderFaults(p: Problem, base: real, option: seq<Node>, before: Frontier)
    ensures before.Frontier? ==> (Consider(p, base, option, before.best, before.stack).Fault? <==> Unknown(p, option))
  {
    hide Evaluate;
  }

  // ---------------------------------------------------------------- deeper expansions

  /** No admissible option in the list, reached at cost `base`, gets below `cost`. */
  ghost predicate NoneBelow(p: Problem, base: real, options: seq<seq<Node>>, cost: real) {
    forall i :: 0 <= i < |options| && Admissible(p, options[i]) ==> base + Cost(p, options[i]) >= cost
  }

  /** Expanding a node ends in a key error, leaves the best plan and the stack alone, or finds a strictly
      cheaper plan. */
  lemma {:induction false} ExpandIff(p: Problem, base: real, options: seq<seq<Node>>, best: Plan, stack: seq<Entry>)
    ensures var next := Expand(p, base, options, Some(best), stack);
            if !AllKnown(p, options) then next.Fault?
            else if NoneBelow(p, base, options, best.cost) then next == Frontier(Some(best), stack)
            else next.Frontier? && next.best.Some? && next.best.value.cost < best.cost
  {
    if options != [] {
      var init, last := options[..|options| - 1], options[|options| - 1];
      ExpandIff(p, base, init, best, stack);
      AllKnownSplits(p, options);
      PlannedCost(p, last);
      NoneBelowSplits(p, base, options, best.cost);
      hide Evaluate, Cost, NoneBelow, AllKnown;
    }
  }

  lemma NoneBelowSplits(p: Problem, base: real, options: seq<seq<Node>>, cost: real)
    requires options != []
    ensures var init, last := options[..|options| - 1], options[|options| - 1];
            NoneBelow(p, base, options, cost) <==>
            NoneBelow(p, base, init, cost) && (Admissible(p, last) ==> base + Cost(p, last) >= cost)
  {
    hide Cost, Admissible;
    var init := options[..|options| - 1];
    assert forall i :: 0 <= i < |init| ==> init[i] == options[i];
  }

  /** Exploring further crashes or never makes the best plan dearer. */
  lemma {:induction false} ExploreImproves(p: Problem, size: map<Node, nat>, stack: seq<Entry>, best: Plan)
    requires Unfolding(p.children, size) && Sized(size, stack)
    ensures var r := Explore(p, size, stack, Some(best)); r.Crashed? || (r.Found? && r.plan.cost <= best.cost)
    decreases StackSize(size, stack)
  {
    hide Unfolding, Expand, Options, AllKnown, NoneBelow;
    if stack != [] {
      var (base, n) := stack[|stack| - 1];
      ExploreStep(p, size, stack, Some(best));
      ExpandIff(p, base, Options(p, n), best, stack[..|stack| - 1]);
      var next := Expand(p, base, Options(p, n), Some(best), stack[..|stack| - 1]);
      if next.Frontier? { ExploreImproves(p, size, next.stack, next.best.value); }
    }
  }

  /** Expanding the entry ends in no key error and gets nothing below `cost`. */
  ghost predicate LeavesAlone(p: Problem, e: Entry, cost: real) {
    && e.1 in p.children
    && AllKnown(p, Options(p, e.1)) && NoneBelow(p, e.0, Options(p, e.1), cost)
  }

  ghost predicate AllLeaveAlone(p: Problem, stack: seq<Entry>, cost: real) {
    forall e :: e in stack ==> LeavesAlone(p, e, cost)
  }

  /** The best plan survives the rest of the search exactly when every waiting entry leaves it alone. */
  lemma {:induction false} BestSurvivesIff(p: Problem, size: map<Node, nat>, stack: seq<Entry>, best: Plan)
    requires Unfolding(p.children, size) && Sized(size, stack)
    ensures Explore(p, size, stack, Some(best)) == Found(best) <==> AllLeaveAlone(p, stack, best.cost)
    decreases |stack|
  {
    hide Unfolding, Expand, Options, NoneBelow, AllKnown;
    if stack != [] {
      var (base, n) := stack[|stack| - 1];
      var rest := stack[..|stack| - 1];
      assert stack == rest + [(base, n)];
      ExploreStep(p, size, stack, Some(best));
      ExpandIff(p, base, Options(p, n), best, rest);
      var next := Expand(p, base, Options(p, n), Some(best), rest);
      if LeavesAlone(p, (base, n), best.cost) {
        BestSurvivesIff(p, size, rest, best);
      } else if next.Frontier? {
        ExploreImproves(p, size, next.stack, next.best.value);
      }
    } else {
      ExploreDone(p, size, stack, Some(best));
    }
  }

  /** What planning promises: the first cheapest admissible option of the root, or none if there is none. */
  ghost predicate CheapestOfRoot(p: Problem, root: Node, r: Outcome)
    requires root in p.children
  {
    var options := Options(p, root);
    if forall j :: 0 <= j < |options| ==> !Admissible(p, options[j]) then r == NoPlan
    else exists i: nat :: FirstCheapest(p, options, i) && r == Found(Evaluate(p, options[i]).plan)
  }

  lemma FirstCheapestUnique(p: Problem, options: seq<seq<Node>>, i: nat, j: nat)
    requires FirstCheapest(p, options, i) && FirstCheapest(p, options, j)
    ensures i == j
  {
    hide Admissible, Cost;
  }

  lemma FirstIsAdmissible(p: Problem, options: seq<seq<Node>>, i: nat)
    requires FirstCheapest(p, options, i)
    ensures i < |options| && Admissible(p, options[i])
  {}

  /** No option of the root ends in a key error, and expanding the last node of any record among them neither
      does nor gets below the first cheapest. */
  ghost predicate RootStands(p: Problem, root: Node)
    requires root in p.children
  {
    var options := Options(p, root);
    && AllKnown(p, options)
    && forall i: nat, m: nat :: Record(p, options, i) && FirstCheapest(p, options, m) ==>
                                  LeavesAlone(p, EntryOf(p, options, i), Cost(p, options[m]))
  }

  /** For arbitrary costs and resources, the search returns the first cheapest admissible option of the root,
      or no plan if there is none, exactly when the root's choice stands. */
  lemma SearchIff(p: Problem, size: map<Node, nat>, root: Node)
    requires Unfolding(p.children, size) && root in size
    ensures root in p.children
    ensures CheapestOfRoot(p, root, Explore(p, size, [(0.0, root)], None)) <==> RootStands(p, root)
  {
    hide Expand, Options, Unfolding, FirstCheapest, Evaluate, Record, LeavesAlone, EntryOf, AllKnown, Cost;
    var stack := [(0.0, root)];
    ExploreStep(p, size, stack, None);
    assert stack[..|stack| - 1] == [];
    var options := Options(p, root);
    var m := ExpandRoot(p, options);
    var next := Expand(p, 0.0, options, None, []);
    if AllKnown(p, options) {
      if next.best.None? {
        assert next.stack == [];
        ExploreDone(p, size, [], None);
        forall k: nat ensures !FirstCheapest(p, options, k) { NotFirst(p, options, k); }
      } else {
        FirstIsAdmissible(p, options, m);
        PlannedCost(p, options[m]);
        forall k: nat | FirstCheapest(p, options, k) ensures m == k { FirstCheapestUnique(p, options, m, k); }
        BestSurvivesIff(p, size, next.stack, next.best.value);
      }
    }
  }

  lemma NotFirst(p: Problem, options: seq<seq<Node>>, k: nat)
    requires forall j :: 0 <= j < |options| ==> !Admissible(p, options[j])
    ensures !FirstCheapest(p, options, k)
  {}

  // ---------------------------------------------------------------- nonnegative costs

  ghost predicate CostsNonnegative(p: Problem) {
    forall n :: p.task(n).cost >= 0.0
  }

  ghost predicate PoolNamesAll(p: Problem) {
    forall n, d :: d in p.task(n).resources ==> d.0 in p.pool
  }

  lemma {:induction false} CostNonnegative(p: Problem, ns: seq<Node>)
    requires CostsNonnegative(p)
    ensures Cost(p, ns) >= 0.0
  {
    if ns != [] { CostNonnegative(p, ns[..|ns| - 1]); }
  }

  lemma {:induction false} ExceededIsNamed(pool: map<Resource, int>, ds: seq<Demand>)
    requires Charge(pool, ds).Exceeded?
    ensures Names(ds, Charge(pool, ds).resource)
  {
    var init, d := ds[..|ds| - 1], ds[|ds| - 1];
    assert ds == init + [d];
    assert d in ds;
    if Charge(pool, init).Exceeded? { ExceededIsNamed(pool, init); }
  }

  lemma NeverUnknown(p: Problem, option: seq<Node>)
    requires PoolNamesAll(p)
    ensures !Evaluate(p, option).UnknownResource?
  {
    var ds := Demands(p, option);
    if Charge(p.pool, ds).Exceeded? {
      ExceededIsNamed(p.pool, ds);
      var d :| d in ds && d.0 == Charge(p.pool, ds).resource;
      DemandedBy(p, option, d);
    }
  }

  lemma NonnegativeNoneBelow(p: Problem, base: real, options: seq<seq<Node>>, cost: real)
    requires CostsNonnegative(p) && base >= cost
    ensures NoneBelow(p, base, options, cost)
  {
    hide Cost, Admissible;
    forall i | 0 <= i < |options| ensures base + Cost(p, options[i]) >= cost {
      CostNonnegative(p, options[i]);
    }
  }

  /** With nonnegative costs and a pool that names every resource the root's choice always stands. */
  lemma RootStandsNonnegative(p: Problem, size: map<Node, nat>, root: Node)
    requires PoolNamesAll(p) && CostsNonnegative(p)
    requires Unfolding(p.children, size) && root in size
    ensures root in p.children && RootStands(p, root)
  {
    hide Unfolding, Evaluate, Cost, Options, CostsNonnegative, PoolNamesAll, NoneBelow;
    OptionsShrink(p, size, root);
    ChildrenSized(p.children, size, root);
    var options := Options(p, root);
    AllNamesKnown(p, options);
    forall i: nat, m: nat | Record(p, options, i) && FirstCheapest(p, options, m)
      ensures LeavesAlone(p, EntryOf(p, options, i), Cost(p, options[m]))
    {
      var e := EntryOf(p, options, i);
      ChildrenSized(p.children, size, e.1);
      AllNamesKnown(p, Options(p, e.1));
      NonnegativeNoneBelow(p, e.0, Options(p, e.1), Cost(p, options[m]));
    }
  }

  lemma AllNamesKnown(p: Problem, options: seq<seq<Node>>)
    requires PoolNamesAll(p)
    ensures AllKnown(p, options)
  {
    hide Evaluate, PoolNamesAll;
    forall i | 0 <= i < |options| ensures !Unknown(p, options[i]) { NeverUnknown(p, options[i]); }
  }

  /** With nonnegative costs no deeper expansion changes the result. */
  lemma SearchFindsCheapest(p: Problem, size: map<Node, nat>, root: Node)
    requires PoolNamesAll(p) && CostsNonnegative(p)
    requires Unfolding(p.children, size) && root in size
    ensures root in p.children && CheapestOfRoot(p, root, Explore(p, size, [(0.0, root)], None))
  {
    hide Explore, Unfolding, CheapestOfRoot, RootStands, CostsNonnegative, PoolNamesAll;
    SearchIff(p, size, root);
    RootStandsNonnegative(p, size, root);
  }

  /** A negative cost below the chosen option replaces the plan but keeps the old cost in its total. */
  lemma NegativeCostDescends(p: Problem, size: map<Node, nat>, root: Node, a: Node, b: Node)
    requires Unfolding(p.children, size) && root in size && a in size && b in size
    requires Options(p, root) == [[a]] && Options(p, a) == [[b]] && Options(p, b) == []
    requires Admissible(p, [a]) && Admissible(p, [b]) && Cost(p, [b]) < 0.0
    ensures Explore(p, size, [(0.0, root)], None) ==
            Found(Evaluate(p, [b]).plan.(cost := Cost(p, [a]) + Cost(p, [b])))
  {
    hide Options, Evaluate, Cost, Expand, Explore, Unfolding;
    PlannedCost(p, [a]);
    PlannedCost(p, [b]);
    var planA := Evaluate(p, [a]).plan;
    var planB := Evaluate(p, [b]).plan.(cost := Cost(p, [a]) + Cost(p, [b]));
    var none: seq<Entry> := [];
    assert none + [(planA.cost, a)] == [(planA.cost, a)] && none + [(planB.cost, b)] == [(planB.cost, b)];
    ExpandSingle(p, 0.0, a, None, []);
    ExploreOne(p, size, 0.0, root, None);
    ExpandSingle(p, planA.cost, b, Some(planA), []);
    ExploreOne(p, size, planA.cost, a, Some(planA));
    ExpandNone(p, planB.cost, [], Some(planB), []);
    ExploreOne(p, size, planB.cost, b, Some(planB));
    ExploreDone(p, size, [], Some(planB));
  }

  lemma ExpandSingle(p: Problem, base: real, n: Node, best: Option<Plan>, stack: seq<Entry>)
    ensures Expand(p, base, [[n]], best, stack) == Consider(p, base, [n], best, stack)
  {
    assert [[n]][..0] == [];
    assert Expand(p, base, [[n]][..0], best, stack) == Frontier(best, stack);
  }

  lemma ExploreOne(p: Problem, size: map<Node, nat>, base: real, n: Node, best: Option<Plan>)
    requires Unfolding(p.children, size) && n in size
    ensures var next := Expand(p, base, Options(p, n), best, []);
            next.Frontier? ==>
              && Sized(size, next.stack)
              && Explore(p, size, [(base, n)], best) == Explore(p, size, next.stack, next.best)
  {
    var stack := [(base, n)];
    assert stack[..|stack| - 1] == [];
    ExploreStep(p, size, stack, best);
  }

  // ---------------------------------------------------------------- what is found

  /** One level of the search: an admissible option of `m`, reached at cost `c`, leads to `n` at cost `cost`. */
  ghost predicate LeadsTo(p: Problem, m: Node, c: real, option: seq<Node>, n: Node, cost: real) {
    && m in p.children && option in Options(p, m) && Admissible(p, option)
    && option != [] && n == option[|option| - 1] && cost == c + Evaluate(p, option).plan.cost
  }

  /** The node is reached from the root at that cost, over `k` levels. */
  ghost predicate ReachedAt(p: Problem, root: Node, n: Node, cost: real, k: nat)
    decreases k
  {
    if k == 0 then n == root && cost == 0.0
    else exists m, c, option :: ReachedAt(p, root, m, c, k - 1) && LeadsTo(p, m, c, option, n, cost)
  }

  ghost predicate ReachedSomehow(p: Problem, root: Node, e: Entry) {
    exists k: nat :: ReachedAt(p, root, e.1, e.0, k)
  }

  /** The plan is that of an admissible option of a node the search gets to, plus what it cost to get there. */
  ghost predicate PlanAt(p: Problem, root: Node, e: Entry, option: seq<Node>, plan: Plan) {
    && ReachedSomehow(p, root, e) && e.1 in p.children && option in Options(p, e.1) && Admissible(p, option)
    && plan == Evaluate(p, option).plan.(cost := e.0 + Evaluate(p, option).plan.cost)
  }

  ghost predicate Attained(p: Problem, root: Node, plan: Plan) {
    exists e, option :: PlanAt(p, root, e, option, plan)
  }

  ghost predicate AllAttained(p: Problem, root: Node, f: Frontier) {
    f.Frontier? ==>
      && (f.best.Some? ==> Attained(p, root, f.best.value))
      && forall e :: e in f.stack ==> ReachedSomehow(p, root, e)
  }

  lemma ConsiderAttains(p: Problem, root: Node, at: Entry, option: seq<Node>, best: Option<Plan>, stack: seq<Entry>)
    requires ReachedSomehow(p, root, at) && at.1 in p.children && option in Options(p, at.1) && option != []
    requires AllAttained(p, root, Frontier(best, stack))
    ensures AllAttained(p, root, Consider(p, at.0, option, best, stack))
  {
    hide Options, Evaluate;
    var next := Consider(p, at.0, option, best, stack);
    if next.Frontier? && next.stack != stack {
      assert PlanAt(p, root, at, option, next.best.value);
      var k: nat :| ReachedAt(p, root, at.1, at.0, k);
      var e := next.stack[|stack|];
      assert LeadsTo(p, at.1, at.0, option, e.1, e.0);
      assert ReachedAt(p, root, e.1, e.0, k + 1);
    }
  }

  lemma {:induction false} ExpandAttains(p: Problem, root: Node, at: Entry, options: seq<seq<Node>>, best: Option<Plan>,
                                         stack: seq<Entry>)
    requires ReachedSomehow(p, root, at) && at.1 in p.children
    requires forall i :: 0 <= i < |options| ==> options[i] in Options(p, at.1) && options[i] != []
    requires AllAttained(p, root, Frontier(best, stack))
    ensures AllAttained(p, root, Expand(p, at.0, options, best, stack))
  {
    hide Options, Consider, AllAttained, ReachedSomehow;
    if options != [] {
      var init := options[..|options| - 1];
      ExpandAttains(p, root, at, init, best, stack);
      var before := Expand(p, at.0, init, best, stack);
      if before.Frontier? {
        ConsiderAttains(p, root, at, options[|options| - 1], before.best, before.stack);
      } else {
        FaultAttains(p, root, before.resource);
      }
    }
  }

  lemma FaultAttains(p: Problem, root: Node, r: Resource)
    ensures AllAttained(p, root, Fault(r))
  {}

  lemma {:induction false} ExploreAttains(p: Problem, size: map<Node, nat>, root: Node, stack: seq<Entry>,
                                          best: Option<Plan>)
    requires Unfolding(p.children, size) && Sized(size, stack) && AllAttained(p, root, Frontier(best, stack))
    ensures var r := Explore(p, size, stack, best); r.Found? ==> Attained(p, root, r.plan)
    decreases StackSize(size, stack)
  {
    hide Unfolding, Expand, Options, Attained, ReachedSomehow;
    if stack != [] {
      var at, rest := stack[|stack| - 1], stack[..|stack| - 1];
      ExploreStep(p, size, stack, best);
      assert AllAttained(p, root, Frontier(best, rest));
      ExpandAttains(p, root, at, Options(p, at.1), best, rest);
      var next := Expand(p, at.0, Options(p, at.1), best, rest);
      if next.Frontier? { ExploreAttains(p, size, root, next.stack, next.best); }
    }
  }

  /** A plan that may be carried out: tasks to do, none of the pending ones too risky, and every resource used
      to the exact total of their demands, within the pool. */
  ghost predicate Workable(p: Problem, plan: Plan) {
    && plan.sequence != []
    && (forall n :: n in plan.sequence && p.task(n).pending ==> p.task(n).risk <= p.threshold)
    && (forall r :: r in plan.usage <==> Names(Demands(p, plan.sequence), r))
    && (forall r :: r in plan.usage ==>
                      plan.usage[r] == Total(Demands(p, plan.sequence), r) && plan.usage[r] <= Get(p.pool, r))
  }

  lemma AdmissibleWorks(p: Problem, option: seq<Node>, cost: real)
    requires Admissible(p, option) && option != []
    ensures Workable(p, Evaluate(p, option).plan.(cost := cost))
  {
    PlanFigures(p, option);
    EvaluateOutcome(p, option);
    var plan, ds := Evaluate(p, option).plan, Demands(p, option);
    forall r | r in plan.usage ensures plan.usage[r] == Total(ds, r) && plan.usage[r] <= Get(p.pool, r) {
      assert Get(plan.usage, r) == Total(ds, r);
      ChargedIsTotal(p.pool, ds, r);
    }
    hide Demands, Evaluate, Total, Names;
  }

  /** For arbitrary costs and resources, a plan that is found is that of an admissible option of a node the search
      gets to, its cost is the sum along the way, and it can be carried out. */
  lemma FoundIsWorkable(p: Problem, size: map<Node, nat>, root: Node)
    requires Unfolding(p.children, size) && root in size
    ensures var r := Explore(p, size, [(0.0, root)], None);
            r.Found? ==> Attained(p, root, r.plan) && Workable(p, r.plan)
  {
    hide Unfolding, Explore, Options, Evaluate, Workable;
    assert ReachedAt(p, root, root, 0.0, 0);
    assert ReachedSomehow(p, root, (0.0, root));
    ExploreAttains(p, size, root, [(0.0, root)], None);
    var r := Explore(p, size, [(0.0, root)], None);
    if r.Found? {
      var e, option :| PlanAt(p, root, e, option, r.plan);
      OptionsNonempty(p, e.1, option);
      AdmissibleWorks(p, option, r.plan.cost);
    }
  }

  lemma OptionsNonempty(p: Problem, n: Node, option: seq<Node>)
    requires n in p.children && option in Options(p, n)
    ensures option != []
  {
    SinglesShape(Fitting(p, p.children[n]));
  }

  // ---------------------------------------------------------------- generate_plan

  /** `generate_plan`: the cycle check, then the search. */
  method GeneratePlan(p: Problem, root: Node) returns (r: Outcome)
    requires Closed(p.children) && root in p.children
    ensures r.Circular? <==> exists n :: Reaches(p.children, root, n) && OnCycle(p.children, n)
    ensures !r.Circular? ==> exists size :: Unfolding(p.children, size) && root in size &&
                                            r == Explore(p, size, [(0.0, root)], None)
    ensures !r.Circular? ==> (CheapestOfRoot(p, root, r) <==> RootStands(p, root))
    ensures !r.Circular? && PoolNamesAll(p) && CostsNonnegative(p) ==> CheapestOfRoot(p, root, r)
    ensures r.Found? ==> Attained(p, root, r.plan) && Workable(p, r.plan)
  {
    hide Unfolding, Explore, CheapestOfRoot, RootStands, CostsNonnegative, PoolNamesAll, Attained, Workable;
    var cycleAt, size := ValidateDag(p.children, root);
    if cycleAt.Some? {
      return Circular(cycleAt.value);
    }
    ghost var pushed;
    r, pushed := Search(p, root, size);
    ExploreIsNotCircular(p, size, [(0.0, root)], None);
    SearchIff(p, size, root);
    FoundIsWorkable(p, size, root);
    if PoolNamesAll(p) && CostsNonnegative(p) { SearchFindsCheapest(p, size, root); }
  }

  lemma {:induction false} ExploreIsNotCircular(p: Problem, size: map<Node, nat>, stack: seq<Entry>, best: Option<Plan>)
    requires Unfolding(p.children, size) && Sized(size, stack)
    ensures !Explore(p, size, stack, best).Circular?
    decreases StackSize(size, stack)
  {
    if stack != [] {
      ExploreStep(p, size, stack, best);
      var (base, n) := stack[|stack| - 1];
      var next := Expand(p, base, Options(p, n), best, stack[..|stack| - 1]);
      if next.Frontier? { ExploreIsNotCircular(p, size, next.stack, next.best); }
    }
  }
}
