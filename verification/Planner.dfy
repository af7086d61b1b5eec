/**
The AND/OR planner's tasks and plans, and the evaluation of one decomposition option against the
resource pool.
`validate_resources`, which the task classes call but do not define, is the parameter `fits`.
*/
module Planner {
  import opened Graphs

  datatype Kind = AndNode | OrNode | AtomicNode

  /** Resource names, numbered. */
  type Resource = nat
  type Demand = (Resource, int)

  /** A task object; `pending` says that its state is "PENDING", `resources` lists its dictionary. */
  datatype Task = Task(kind: Kind, resources: seq<Demand>, cost: real, risk: real, pending: bool)

  datatype Problem = Problem(task: Node -> Task, children: Graph, pool: map<Resource, int>,
                             threshold: real, fits: Node -> bool)

  datatype Plan = Plan(sequence: seq<Node>, usage: map<Resource, int>, cost: real, risk: real)

  // ---------------------------------------------------------------- evaluating an option

  /** Outcome of `_evaluate_option`; the error message of line 192 fails for a resource not in the pool. */
  datatype Evaluation = Planned(plan: Plan) | Conflict(resource: Resource) | UnknownResource(resource: Resource)

  datatype Ledger = Charged(usage: map<Resource, int>) | Exceeded(resource: Resource)

  function Get(m: map<Resource, int>, r: Resource): int {
    if r in m then m[r] else 0
  }

  function OwnDemands(t: Task): seq<Demand> { if t.pending then t.resources else [] }

  function OwnCost(t: Task): real { if t.pending then t.cost else 0.0 }

  function OwnRisk(t: Task): real { if t.pending then t.risk else 0.0 }

  /** The demands of the pending nodes, in the order the loops meet them. */
  function Demands(p: Problem, ns: seq<Node>): seq<Demand>
  {
    if ns == [] then []
    else Demands(p, ns[..|ns| - 1]) + OwnDemands(p.task(ns[|ns| - 1]))
  }

  /** The running account: stops at the first demand that takes a resource above the pool. */
  function Charge(pool: map<Resource, int>, ds: seq<Demand>): Ledger {
    if ds == [] then Charged(map[])
    else
      var (r, amount) := ds[|ds| - 1];
      match Charge(pool, ds[..|ds| - 1])
      case Exceeded(r0) => Exceeded(r0)
      case Charged(usage) =>
        if Get(usage, r) + amount > Get(pool, r) then Exceeded(r)
        else Charged(usage[r := Get(usage, r) + amount])
  }

  function Cost(p: Problem, ns: seq<Node>): real
  {
    if ns == [] then 0.0
    else Cost(p, ns[..|ns| - 1]) + OwnCost(p.task(ns[|ns| - 1]))
  }

  function Max(x: real, y: real): real { if x < y then y else x }

  function Risk(p: Problem, ns: seq<Node>): (risk: real)
    ensures risk >= 0.0
  {
    if ns == [] then 0.0
    else Max(Risk(p, ns[..|ns| - 1]), OwnRisk(p.task(ns[|ns| - 1])))
  }

  function Evaluate(p: Problem, ns: seq<Node>): Evaluation
  {
    match Charge(p.pool, Demands(p, ns))
    case Exceeded(r) => if r in p.pool then Conflict(r) else UnknownResource(r)
    case Charged(usage) => Planned(Plan(ns, usage, Cost(p, ns), Risk(p, ns)))
  }

  lemma {:induction false} ExceededStays(pool: map<Resource, int>, ds: seq<Demand>, k: nat)
    requires k <= |ds| && Charge(pool, ds[..k]).Exceeded?
    ensures Charge(pool, ds) == Charge(pool, ds[..k])
  {
    if k == |ds| {
      assert ds[..k] == ds;
    } else {
      assert ds[..|ds| - 1][..k] == ds[..k];
      ExceededStays(pool, ds[..|ds| - 1], k);
    }
  }

  lemma {:induction false} DemandsPrefix(p: Problem, ns: seq<Node>, i: nat)
    requires i <= |ns|
    ensures Demands(p, ns[..i]) <= Demands(p, ns)
  {
    if i == |ns| {
      assert ns[..i] == ns;
    } else {
      assert ns[..|ns| - 1][..i] == ns[..i];
      DemandsPrefix(p, ns[..|ns| - 1], i);
    }
  }

  lemma RefusedEarly(p: Problem, ns: seq<Node>, i: nat, j: nat)
    requires i < |ns| && p.task(ns[i]).pending && j <= |p.task(ns[i]).resources|
    requires Charge(p.pool, Demands(p, ns[..i]) + p.task(ns[i]).resources[..j]).Exceeded?
    ensures Charge(p.pool, Demands(p, ns)) == Charge(p.pool, Demands(p, ns[..i]) + p.task(ns[i]).resources[..j])
  {
    var all, part := Demands(p, ns), Demands(p, ns[..i]) + p.task(ns[i]).resources[..j];
    DemandsPrefix(p, ns, i + 1);
    assert ns[..i + 1][..i] == ns[..i];
    assert part <= Demands(p, ns[..i + 1]) <= all;
    assert all[..|part|] == part;
    ExceededStays(p.pool, all, |part|);
  }

  lemma NoNodes(p: Problem, ns: seq<Node>)
    requires ns == []
    ensures Charge(p.pool, Demands(p, ns)) == Charged(map[]) && Cost(p, ns) == Risk(p, ns) == 0.0
  {}

  lemma NextNode(p: Problem, ns: seq<Node>, i: nat)
    requires i < |ns|
    ensures Demands(p, ns[..i + 1]) == Demands(p, ns[..i]) + OwnDemands(p.task(ns[i]))
    ensures Cost(p, ns[..i + 1]) == Cost(p, ns[..i]) + OwnCost(p.task(ns[i]))
    ensures Risk(p, ns[..i + 1]) == Max(Risk(p, ns[..i]), OwnRisk(p.task(ns[i])))
  {
    assert ns[..i + 1][..i] == ns[..i];
  }

  lemma NextDemand(pool: map<Resource, int>, before: seq<Demand>, ds: seq<Demand>, j: nat)
    requires j < |ds|
    requires Charge(pool, before + ds[..j]).Charged?
    ensures var usage, (r, amount) := Charge(pool, before + ds[..j]).usage, ds[j];
            Charge(pool, before + ds[..j + 1]) ==
            if Get(usage, r) + amount > Get(pool, r) then Exceeded(r)
            else Charged(usage[r := Get(usage, r) + amount])
  {
    var all := before + ds[..j + 1];
    assert all[..|all| - 1] == before + ds[..j] && all[|all| - 1] == ds[j];
  }

  /** The nested loops of `_evaluate_option` with their early exit. */
  method EvaluateOption(p: Problem, ns: seq<Node>) returns (e: Evaluation)
    ensures e == Evaluate(p, ns)
    ensures e.Planned? ==> e.plan.sequence == ns && LargestRisk(p, ns, e.plan.risk)
  {
    hide Demands, Charge, Cost, Risk, LargestRisk;
    var required: map<Resource, int> := map[];
    assert Charge(p.pool, Demands(p, ns[..0])) == Charged(map[]) && Cost(p, ns[..0]) == Risk(p, ns[..0]) == 0.0 by {
      NoNodes(p, ns[..0]);
    }
    var cost, risk := 0.0, 0.0;
    for i := 0 to |ns|
      invariant Charge(p.pool, Demands(p, ns[..i])) == Charged(required)
      invariant cost == Cost(p, ns[..i]) && risk == Risk(p, ns[..i])
    {
      var t := p.task(ns[i]);
      NextNode(p, ns, i);
      ghost var before := Demands(p, ns[..i]);
      if t.pending {
        assert before + t.resources[..0] == before;
        for j := 0 to |t.resources|
          invariant Charge(p.pool, before + t.resources[..j]) == Charged(required)
        {
          var (r, amount) := t.resources[j];
          NextDemand(p.pool, before, t.resources, j);
          required := required[r := Get(required, r) + amount];
          if required[r] > Get(p.pool, r) {
            RefusedEarly(p, ns, i, j + 1);
            return if r in p.pool then Conflict(r) else UnknownResource(r);
          }
        }
        assert t.resources[..|t.resources|] == t.resources;
        cost := cost + t.cost;
        risk := Max(risk, t.risk);
      } else {
        assert before + [] == before;
      }
    }
    assert ns[..|ns|] == ns;
    e := Planned(Plan(ns, required, cost, risk));
    RiskIsMaximum(p, ns);
  }

  /** How much of one resource a list of demands asks for in all. */
  function Total(ds: seq<Demand>, r: Resource): int {
    if ds == [] then 0
    else Total(ds[..|ds| - 1], r) + if ds[|ds| - 1].0 == r then ds[|ds| - 1].1 else 0
  }

  predicate Names(ds: seq<Demand>, r: Resource) {
    exists d :: d in ds && d.0 == r
  }

  ghost predicate Nonnegative(ds: seq<Demand>) {
    forall d :: d in ds ==> d.1 >= 0
  }

  /** For any amounts, the account that comes out is the exact total of each named resource. */
  lemma {:induction false} ChargedIsTotal(pool: map<Resource, int>, ds: seq<Demand>, r: Resource)
    requires Charge(pool, ds).Charged?
    ensures r in Charge(pool, ds).usage <==> Names(ds, r)
    ensures Get(Charge(pool, ds).usage, r) == Total(ds, r)
    ensures Names(ds, r) ==> Total(ds, r) <= Get(pool, r)
  {
    if ds != [] {
      var init, d := ds[..|ds| - 1], ds[|ds| - 1];
      assert ds == init + [d];
      ChargedIsTotal(pool, init, r);
      if r == d.0 { assert d in ds; }
      if Names(ds, r) && r != d.0 { var e :| e in ds && e.0 == r; assert e in init; }
    }
  }

  /** The running total at demand `k` takes its resource above the pool. */
  ghost predicate Breaks(pool: map<Resource, int>, ds: seq<Demand>, k: nat) {
    k < |ds| && Total(ds[..k + 1], ds[k].0) > Get(pool, ds[k].0)
  }

  ghost predicate FirstBreak(pool: map<Resource, int>, ds: seq<Demand>, k: nat) {
    Breaks(pool, ds, k) && forall j: nat :: j < k ==> !Breaks(pool, ds, j)
  }

  /** For any amounts the account comes through exactly if no running total breaks the pool, and is refused
      at the first that does. */
  lemma {:induction false} ChargeIff(pool: map<Resource, int>, ds: seq<Demand>) returns (k: nat)
    ensures Charge(pool, ds).Charged? <==> forall j: nat :: !Breaks(pool, ds, j)
    ensures Charge(pool, ds).Exceeded? ==> FirstBreak(pool, ds, k) && Charge(pool, ds).resource == ds[k].0
  {
    k := 0;
    if ds != [] {
      var init, d := ds[..|ds| - 1], ds[|ds| - 1];
      k := ChargeIff(pool, init);
      BreaksOfInit(pool, ds);
      if Charge(pool, init).Charged? {
        k := |init|;
        ChargedIsTotal(pool, init, d.0);
        assert ds[..k + 1] == ds;
        assert Breaks(pool, ds, k) <==> Charge(pool, ds).Exceeded?;
        forall j: nat | j != k ensures !Breaks(pool, ds, j) {
          if j < k { assert !Breaks(pool, init, j); }
        }
      } else {
        assert Breaks(pool, ds, k);
      }
    }
  }

  lemma BreaksOfInit(pool: map<Resource, int>, ds: seq<Demand>)
    requires ds != []
    ensures forall j: nat :: j < |ds| - 1 ==> (Breaks(pool, ds[..|ds| - 1], j) <==> Breaks(pool, ds, j))
  {
    hide Total;
    forall j: nat | j < |ds| - 1 ensures Breaks(pool, ds[..|ds| - 1], j) <==> Breaks(pool, ds, j) {
      assert ds[..|ds| - 1][..j + 1] == ds[..j + 1];
    }
  }

  /** `risk` is the largest risk of a pending node, and at least 0. */
  ghost predicate LargestRisk(p: Problem, ns: seq<Node>, risk: real) {
    && risk >= 0.0
    && (forall n :: n in ns && p.task(n).pending ==> p.task(n).risk <= risk)
    && (risk == 0.0 || exists n :: n in ns && p.task(n).pending && p.task(n).risk == risk)
  }

  lemma {:induction false} RiskIsMaximum(p: Problem, ns: seq<Node>)
    ensures LargestRisk(p, ns, Risk(p, ns))
  {
    if ns != [] {
      RiskIsMaximum(p, ns[..|ns| - 1]);
      assert ns == ns[..|ns| - 1] + [ns[|ns| - 1]];
    }
  }

  lemma DemandsOfOne(p: Problem, n: Node)
    ensures Demands(p, [n]) == OwnDemands(p.task(n)) == if p.task(n).pending then p.task(n).resources else []
  {
    assert Demands(p, [n][..0]) == [];
  }

  /** The demands looked at are the dictionaries of the pending nodes, one after the other, and no others. */
  lemma {:induction false} DemandsJoin(p: Problem, ms: seq<Node>, n: Node, ns: seq<Node>)
    ensures Demands(p, ms + [n] + ns) ==
            Demands(p, ms) + (if p.task(n).pending then p.task(n).resources else []) + Demands(p, ns)
  {
    hide OwnDemands;
    var all := ms + [n] + ns;
    if ns == [] {
      DemandsOfOne(p, n);
      NextNode(p, all, |ms|);
      assert all[..|ms|] == ms && all[..|ms| + 1] == all;
      assert Demands(p, all) + [] == Demands(p, all);
    } else {
      assert all[..|all| - 1] == ms + [n] + ns[..|ns| - 1] && all[|all| - 1] == ns[|ns| - 1];
      DemandsJoin(p, ms, n, ns[..|ns| - 1]);
    }
  }

  /** Every figure of an option's plan from its tasks alone: the nodes themselves; the largest risk of a pending
      task, at least 0; and cost and usage, to which each further pending task adds its own. */
  lemma PlanFigures(p: Problem, ns: seq<Node>)
    requires Evaluate(p, ns).Planned?
    ensures Evaluate(p, ns).plan.sequence == ns && LargestRisk(p, ns, Evaluate(p, ns).plan.risk)
    ensures ns == [] ==> Evaluate(p, ns).plan.cost == 0.0 && Evaluate(p, ns).plan.usage == map[]
    ensures ns != [] ==>
              var before, plan, t := Evaluate(p, ns[..|ns| - 1]), Evaluate(p, ns).plan, p.task(ns[|ns| - 1]);
              && before.Planned?
              && plan.cost == before.plan.cost + (if t.pending then t.cost else 0.0)
              && forall r :: Get(plan.usage, r) == Get(before.plan.usage, r) + if t.pending then Total(t.resources, r) else 0
  {
    RiskIsMaximum(p, ns);
    hide LargestRisk;
    if ns != [] {
      var init, t := ns[..|ns| - 1], p.task(ns[|ns| - 1]);
      var ds, own := Demands(p, init), OwnDemands(t);
      assert (ds + own)[..|ds|] == ds;
      if Charge(p.pool, ds).Exceeded? { ExceededStays(p.pool, ds + own, |ds|); }
      hide Demands, Charge, Risk, Total;
      forall r ensures Get(Evaluate(p, ns).plan.usage, r) ==
                       Get(Evaluate(p, init).plan.usage, r) + if t.pending then Total(t.resources, r) else 0
      {
        ChargedIsTotal(p.pool, ds, r);
        ChargedIsTotal(p.pool, ds + own, r);
        TotalAppend(ds, own, r);
        TotalNone(r);
      }
    }
  }

  lemma TotalNone(r: Resource)
    ensures Total([], r) == 0
  {}

  /** The exact outcome of `_evaluate_option` for any amounts: a plan with exact totals if no running total
      breaks the pool; otherwise, at the first that does, a conflict if the pool names the resource and a key
      error if it does not. */
  lemma EvaluateOutcome(p: Problem, ns: seq<Node>)
    ensures Evaluate(p, ns).Planned? <==> forall k: nat :: !Breaks(p.pool, Demands(p, ns), k)
    ensures Evaluate(p, ns).Planned? ==>
              forall r :: && (r in Evaluate(p, ns).plan.usage <==> Names(Demands(p, ns), r))
                          && Get(Evaluate(p, ns).plan.usage, r) == Total(Demands(p, ns), r)
    ensures forall k: nat :: FirstBreak(p.pool, Demands(p, ns), k) ==>
                               var r := Demands(p, ns)[k].0;
                               Evaluate(p, ns) == if r in p.pool then Conflict(r) else UnknownResource(r)
  {
    hide Demands, Charge, Cost, Risk, Total;
    var ds := Demands(p, ns);
    var first := ChargeIff(p.pool, ds);
    assert Evaluate(p, ns).Planned? <==> Charge(p.pool, ds).Charged?;
    if Charge(p.pool, ds).Exceeded? {
      assert exists k: nat :: Breaks(p.pool, Demands(p, ns), k) by { assert Breaks(p.pool, Demands(p, ns), first); }
    } else {
      forall k: nat ensures !Breaks(p.pool, Demands(p, ns), k) { assert !Breaks(p.pool, ds, k); }
      forall r ensures r in Charge(p.pool, ds).usage <==> Names(ds, r)
               ensures Get(Charge(p.pool, ds).usage, r) == Total(ds, r)
      {
        ChargedIsTotal(p.pool, ds, r);
      }
    }
    forall k: nat | FirstBreak(p.pool, ds, k)
      ensures Evaluate(p, ns) == if ds[k].0 in p.pool then Conflict(ds[k].0) else UnknownResource(ds[k].0)
    {
      FirstBreakUnique(p.pool, ds, k, first);
    }
  }

  lemma FirstBreakUnique(pool: map<Resource, int>, ds: seq<Demand>, j: nat, k: nat)
    requires FirstBreak(pool, ds, j) && FirstBreak(pool, ds, k)
    ensures j == k
  {
    hide Breaks;
  }

  /** A single pending task that asks for some of a resource missing from the pool ends in a key error. */
  lemma KeyErrorOption(p: Problem, n: Node, r: Resource, amount: int)
    requires p.task(n).pending && p.task(n).resources == [(r, amount)] && amount > 0 && r !in p.pool
    ensures Evaluate(p, [n]) == UnknownResource(r)
  {
    var ds: seq<Demand> := [(r, amount)];
    assert Demands(p, [n][..0]) == [] && Demands(p, [n]) == [] + ds == ds;
    assert Total(ds[..0], r) == 0 && ds[..1] == ds;
    assert FirstBreak(p.pool, ds, 0);
    EvaluateOutcome(p, [n]);
  }

  /** With nonnegative amounts it succeeds exactly when no resource's full total is above the pool. */
  lemma EvaluateMeans(p: Problem, ns: seq<Node>)
    requires Nonnegative(Demands(p, ns))
    ensures Evaluate(p, ns).Planned? <==>
            forall r :: Names(Demands(p, ns), r) ==> Total(Demands(p, ns), r) <= Get(p.pool, r)
    ensures Evaluate(p, ns).Planned? ==>
              forall r :: && (r in Evaluate(p, ns).plan.usage <==> Names(Demands(p, ns), r))
                          && Get(Evaluate(p, ns).plan.usage, r) == Total(Demands(p, ns), r)
  {
    var ds := Demands(p, ns);
    EvaluateOutcome(p, ns);
    if Evaluate(p, ns).Planned? {
      forall r | Names(ds, r) ensures Total(ds, r) <= Get(p.pool, r) { ChargedIsTotal(p.pool, ds, r); }
    } else {
      var k: nat :| Breaks(p.pool, ds, k);
      TotalGrows(ds, k + 1, ds[k].0);
      assert ds[k] in ds;
    }
  }

  /** With nonnegative amounts a running total never exceeds the full total. */
  lemma TotalGrows(ds: seq<Demand>, k: nat, r: Resource)
    requires Nonnegative(ds) && k <= |ds|
    ensures Total(ds[..k], r) <= Total(ds, r)
  {
    assert ds == ds[..k] + ds[k..];
    TotalAppend(ds[..k], ds[k..], r);
    TotalNonnegative(ds[k..], r);
  }

  lemma {:induction false} TotalNonnegative(ds: seq<Demand>, r: Resource)
    requires Nonnegative(ds)
    ensures Total(ds, r) >= 0
  {
    if ds != [] { TotalNonnegative(ds[..|ds| - 1], r); }
  }

  lemma {:induction false} TotalAppend(ds: seq<Demand>, es: seq<Demand>, r: Resource)
    ensures Total(ds + es, r) == Total(ds, r) + Total(es, r)
  {
    if es == [] {
      assert ds + es == ds;
    } else {
      assert (ds + es)[..|ds + es| - 1] == ds + es[..|es| - 1];
      TotalAppend(ds, es[..|es| - 1], r);
    }
  }

  function Without(ns: seq<Node>, i: nat): seq<Node>
    requires i < |ns|
  {
    ns[..i] + ns[i + 1..]
  }

  lemma WithoutLast(ns: seq<Node>, i: nat)
    requires i < |ns|
    ensures i == |ns| - 1 ==> Without(ns, i) == ns[..|ns| - 1]
    ensures i < |ns| - 1 ==>
              var rest := Without(ns, i);
              rest[..|rest| - 1] == Without(ns[..|ns| - 1], i) && rest[|rest| - 1] == ns[|ns| - 1]
  {}

  /** Taking one node out of an option takes its own share out of every figure. */
  lemma {:induction false} TakeOutTotal(p: Problem, ns: seq<Node>, i: nat, r: Resource)
    requires i < |ns|
    ensures Total(Demands(p, ns), r) ==
            Total(Demands(p, Without(ns, i)), r) + Total(OwnDemands(p.task(ns[i])), r)
  {
    var init, own := ns[..|ns| - 1], OwnDemands(p.task(ns[|ns| - 1]));
    TotalAppend(Demands(p, init), own, r);
    WithoutLast(ns, i);
    if i < |ns| - 1 {
      TakeOutTotal(p, init, i, r);
      TotalAppend(Demands(p, Without(init, i)), own, r);
    }
  }

  lemma {:induction false} TakeOutCostAndRisk(p: Problem, ns: seq<Node>, i: nat)
    requires i < |ns|
    ensures Cost(p, ns) == Cost(p, Without(ns, i)) + OwnCost(p.task(ns[i]))
    ensures Risk(p, ns) == Max(Risk(p, Without(ns, i)), OwnRisk(p.task(ns[i])))
  {
    WithoutLast(ns, i);
    if i < |ns| - 1 { TakeOutCostAndRisk(p, ns[..|ns| - 1], i); }
  }

  lemma WithoutIsRest(ns: seq<Node>, i: nat)
    requires i < |ns|
    ensures multiset(Without(ns, i)) == multiset(ns) - multiset{ns[i]}
  {
    assert ns == ns[..i] + [ns[i]] + ns[i + 1..];
  }

  lemma {:induction false} FiguresPermute(p: Problem, ns: seq<Node>, ms: seq<Node>, r: Resource)
    requires multiset(ns) == multiset(ms)
    ensures Total(Demands(p, ns), r) == Total(Demands(p, ms), r)
    ensures Cost(p, ns) == Cost(p, ms) && Risk(p, ns) == Risk(p, ms)
    decreases |ns|
  {
    assert |ns| == |multiset(ns)| == |ms|;
    if ns != [] {
      assert ns[0] in multiset(ms);
      var j :| 0 <= j < |ms| && ms[j] == ns[0];
      WithoutIsRest(ns, 0);
      WithoutIsRest(ms, j);
      TakeOutTotal(p, ns, 0, r);
      TakeOutTotal(p, ms, j, r);
      TakeOutCostAndRisk(p, ns, 0);
      TakeOutCostAndRisk(p, ms, j);
      FiguresPermute(p, Without(ns, 0), Without(ms, j), r);
    }
  }

  lemma {:induction false} DemandedBy(p: Problem, ns: seq<Node>, d: Demand)
    ensures d in Demands(p, ns) <==> exists n :: n in ns && d in OwnDemands(p.task(n))
  {
    if ns != [] {
      DemandedBy(p, ns[..|ns| - 1], d);
      assert ns == ns[..|ns| - 1] + [ns[|ns| - 1]];
    }
  }

  lemma DemandsPermute(p: Problem, ns: seq<Node>, ms: seq<Node>)
    requires multiset(ns) == multiset(ms)
    ensures forall d :: d in Demands(p, ns) <==> d in Demands(p, ms)
    ensures forall r :: Total(Demands(p, ns), r) == Total(Demands(p, ms), r)
  {
    assert forall n :: n in ns <==> n in multiset(ns);
    assert forall n :: n in ms <==> n in multiset(ms);
    forall d ensures d in Demands(p, ns) <==> d in Demands(p, ms) {
      DemandedBy(p, ns, d);
      DemandedBy(p, ms, d);
    }
    forall r ensures Total(Demands(p, ns), r) == Total(Demands(p, ms), r) {
      FiguresPermute(p, ns, ms, r);
    }
  }

  /** Reordering the nodes of an option changes neither whether it fits nor any figure of its plan. */
  lemma EvaluatePermutes(p: Problem, ns: seq<Node>, ms: seq<Node>)
    requires multiset(ns) == multiset(ms) && Nonnegative(Demands(p, ns))
    ensures Evaluate(p, ns).Planned? <==> Evaluate(p, ms).Planned?
    ensures Evaluate(p, ns).Planned? ==>
              var a, b := Evaluate(p, ns).plan, Evaluate(p, ms).plan;
              a.usage == b.usage && a.cost == b.cost && a.risk == b.risk
  {
    DemandsPermute(p, ns, ms);
    FiguresPermute(p, ns, ms, 0);
    EvaluateMeans(p, ns);
    EvaluateMeans(p, ms);
    NamesAgree(Demands(p, ns), Demands(p, ms));
    hide Demands, Charge, Cost, Risk, Total, Names;
    if Evaluate(p, ns).Planned? {
      UsageAgrees(Evaluate(p, ns).plan.usage, Evaluate(p, ms).plan.usage);
    }
  }

  lemma NamesAgree(ds: seq<Demand>, es: seq<Demand>)
    requires forall d :: d in ds <==> d in es
    ensures forall r :: Names(ds, r) <==> Names(es, r)
  {}

  lemma UsageAgrees(a: map<Resource, int>, b: map<Resource, int>)
    requires forall r :: (r in a <==> r in b) && Get(a, r) == Get(b, r)
    ensures a == b
  {
    forall r | r in a ensures r in b && a[r] == b[r] {
      assert Get(a, r) == Get(b, r);
    }
  }
}
