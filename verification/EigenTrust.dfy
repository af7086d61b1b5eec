/**
The reputation engine: clamped interaction scores and the damped, normalised iteration of global
trust, over the reals.  Peers and their numbers are finite maps; a sum over a hash map is taken in
the order of the keys, and `SumTake` shows that the order does not matter.
*/
module EigenTrust {

  type Id = nat

  /** `f64::EPSILON`, the convergence threshold and the bound on rounds. */
  const EPSILON: real := 1.0 / 4503599627370496.0
  const CONVERGENCE_THRESHOLD: real := 0.000000001
  const MAX_ITERATIONS: nat := 100

  type Scores = map<Id, real>

  datatype Peer = Peer(local: Scores, global: real)

  type Registry = map<Id, Peer>

  // ---------------------------------------------------------------- sums over maps

  ghost predicate IsLeast(s: set<Id>, k: Id) {
    k in s && forall j :: j in s ==> k <= j
  }

  lemma {:induction false} LeastExists(s: set<Id>) returns (k: Id)
    requires s != {}
    ensures IsLeast(s, k)
  {
    var n :| n in s;
    var rest := s - {n};
    assert forall j :: j in s ==> j == n || j in rest;
    k := n;
    if rest != {} {
      var m := LeastExists(rest);
      k := if m < n then m else n;
    }
  }

  function Least(s: set<Id>): (k: Id)
    requires s != {}
    ensures IsLeast(s, k)
  {
    assert exists k :: IsLeast(s, k) by { var k := LeastExists(s); }
    var k :| k in s && forall j :: j in s ==> k <= j;
    k
  }

  function Sum(m: Scores): real
    decreases m.Keys
  {
    if m == map[] then 0.0
    else
      assert m.Keys != {};
      var k := Least(m.Keys);
      m[k] + Sum(m - {k})
  }

  /** The sum may be taken in any order. */
  lemma {:induction false} SumTake(m: Scores, k: Id)
    requires k in m
    ensures Sum(m) == m[k] + Sum(m - {k})
    decreases m.Keys
  {
    var j := Least(m.Keys);
    if j != k {
      SumTake(m - {j}, k);
      SumTake(m - {k}, j);
      assert m - {j} - {k} == m - {k} - {j};
    }
  }

  lemma {:induction false} SumNonnegative(m: Scores)
    requires forall k :: k in m ==> m[k] >= 0.0
    ensures Sum(m) >= 0.0
    decreases m.Keys
  {
    if m != map[] { SumNonnegative(m - {Least(m.Keys)}); }
  }

  /** Entries missing from `b` must be at most 0 in `a`. */
  lemma {:induction false} SumBelow(a: Scores, b: Scores)
    requires forall k :: k in a ==> a[k] <= if k in b then b[k] else 0.0
    requires forall k :: k in b ==> b[k] >= 0.0
    ensures Sum(a) <= Sum(b)
    decreases a.Keys
  {
    if a == map[] {
      SumNonnegative(b);
    } else {
      var j := Least(a.Keys);
      if j in b {
        SumTake(b, j);
        SumBelow(a - {j}, b - {j});
      } else {
        SumBelow(a - {j}, b);
      }
    }
  }

  function Times(x: real, y: real): real { x * y }

  function Over(x: real, y: real): real
    requires y != 0.0
  {
    x / y
  }

  function Affine(m: Scores, a: real, b: real): Scores {
    map k | k in m :: a + Times(b, m[k])
  }

  lemma {:induction false} SumAffine(m: Scores, a: real, b: real)
    ensures Sum(Affine(m, a, b)) == Times(|m| as real, a) + Times(b, Sum(m))
    decreases m.Keys
  {
    hide Times;
    if m == map[] {
      assert Affine(m, a, b) == map[];
      TimesZero(a, b);
    } else {
      var k := Least(m.Keys);
      var rest := m - {k};
      SumAffine(rest, a, b);
      SumTake(Affine(m, a, b), k);
      AffineTake(m, a, b, k);
      SizeTake(m, k);
      Distribute(|rest| as real, a, b, m[k], Sum(rest));
    }
  }

  lemma SizeTake(m: Scores, k: Id)
    requires k in m
    ensures |m| as real == |m - {k}| as real + 1.0
  {
    assert m.Keys == (m - {k}).Keys + {k};
  }

  lemma AffineTake(m: Scores, a: real, b: real, k: Id)
    requires k in m
    ensures Affine(m, a, b) - {k} == Affine(m - {k}, a, b)
  {
    hide Times;
  }

  lemma TimesZero(a: real, b: real)
    ensures Times(0.0, a) == Times(b, 0.0) == 0.0
  {}

  lemma Distribute(n: real, a: real, b: real, x: real, y: real)
    ensures Times(n + 1.0, a) + Times(b, x + y) == (a + Times(b, x)) + (Times(n, a) + Times(b, y))
  {}

  // ---------------------------------------------------------------- one round

  function Get(m: Scores, k: Id): real { if k in m then m[k] else 0.0 }

  function Weighted(local: Scores, prev: Scores): Scores {
    map j | j in local :: Times(local[j], Get(prev, j))
  }

  /** The damped combination of line 110. */
  function Mix(alpha: real, weighted: real, global: real): real {
    alpha * weighted + (1.0 - alpha) * global
  }

  /** The scores of one round before normalisation. */
  function Raw(alpha: real, nodes: Registry, prev: Scores): (raw: Scores)
    ensures raw.Keys == nodes.Keys
  {
    map i | i in nodes :: Mix(alpha, Sum(Weighted(nodes[i].local, prev)), nodes[i].global)
  }

  predicate NearZero(total: real) { -EPSILON < total < EPSILON }

  function Normalize(scores: Scores): (r: Scores)
    ensures r.Keys == scores.Keys
  {
    var total := Sum(scores);
    if NearZero(total) then map k | k in scores :: Over(1.0, |scores| as real)
    else map k | k in scores :: Over(scores[k], total)
  }

  function Compute(alpha: real, nodes: Registry, prev: Scores): (r: Scores)
    ensures r.Keys == nodes.Keys
  {
    Normalize(Raw(alpha, nodes, prev))
  }

  /** Local trust lies in [0, 1] and every peer has some global trust. */
  ghost predicate Sound(nodes: Registry) {
    && (forall i, j :: i in nodes && j in nodes[i].local ==> 0.0 <= nodes[i].local[j] <= 1.0)
    && (forall i :: i in nodes ==> nodes[i].global > 0.0)
  }

  ghost predicate Nonnegative(m: Scores) { forall k :: k in m ==> m[k] >= 0.0 }

  ghost predicate Positive(m: Scores) { forall k :: k in m ==> m[k] > 0.0 }

  /** A peer's weighted sum is nonnegative and no larger than all trust there is. */
  lemma WeightedBounds(local: Scores, prev: Scores)
    requires forall j :: j in local ==> 0.0 <= local[j] <= 1.0
    requires Nonnegative(prev)
    ensures 0.0 <= Sum(Weighted(local, prev)) <= Sum(prev)
  {
    hide Times, Sum;
    var w := Weighted(local, prev);
    forall j | j in w ensures 0.0 <= w[j] <= if j in prev then prev[j] else 0.0 {
      Scaled(local[j], Get(prev, j));
    }
    SumNonnegative(w);
    SumBelow(w, prev);
  }

  lemma ProductSign(x: real, y: real)
    requires x >= 0.0 && y >= 0.0
    ensures x * y >= 0.0
  {
    if x > 0.0 && y > 0.0 { assert x * y > 0.0; }
  }

  lemma Scaled(x: real, y: real)
    requires 0.0 <= x <= 1.0 && y >= 0.0
    ensures 0.0 <= Times(x, y) <= y
  {
    ProductSign(x, y);
    ProductSign(1.0 - x, y);
    assert (1.0 - x) * y == y - x * y;
  }

  lemma RawBounds(alpha: real, nodes: Registry, prev: Scores, i: Id)
    requires 0.0 <= alpha <= 1.0 && Sound(nodes) && Nonnegative(prev) && i in nodes
    ensures Mix(alpha, 0.0, nodes[i].global) <= Raw(alpha, nodes, prev)[i] <= Mix(alpha, Sum(prev), nodes[i].global)
    ensures Raw(alpha, nodes, prev)[i] >= 0.0
    ensures Raw(alpha, nodes, prev)[i] > 0.0 <==> alpha < 1.0 || Sum(Weighted(nodes[i].local, prev)) > 0.0
  {
    hide Mix, Sum, Weighted;
    WeightedBounds(nodes[i].local, prev);
    Damped(alpha, Sum(Weighted(nodes[i].local, prev)), Sum(prev), nodes[i].global);
  }

  lemma Damped(alpha: real, w: real, all: real, g: real)
    requires 0.0 <= alpha <= 1.0 && 0.0 <= w <= all && g > 0.0
    ensures 0.0 <= Mix(alpha, 0.0, g) <= Mix(alpha, w, g) <= Mix(alpha, all, g)
    ensures Mix(alpha, w, g) > 0.0 <==> alpha < 1.0 || w > 0.0
  {
    assert 0.0 <= alpha * w <= alpha * all;
    assert (1.0 - alpha) * g >= 0.0;
    assert alpha < 1.0 ==> (1.0 - alpha) * g > 0.0;
  }

  lemma OverIsTimes(x: real, y: real)
    requires y > 0.0
    ensures Over(x, y) == 0.0 + Times(Over(1.0, y), x)
    ensures Times(y, Over(1.0, y)) == 1.0 && Times(Over(1.0, y), y) == 1.0 && Over(1.0, y) > 0.0
    ensures Times(0.0, x) == 0.0 && Times(x, 0.0) == 0.0
    ensures x >= 0.0 ==> Over(x, y) >= 0.0 && (Over(x, y) > 0.0 <==> x > 0.0)
  {}

  /** Normalised scores keep their keys, stay nonnegative and sum to exactly 1; positive ones stay positive. */
  lemma NormalizeSums(m: Scores)
    requires Nonnegative(m) && m != map[]
    ensures var r := Normalize(m);
            r.Keys == m.Keys && Nonnegative(r) && Sum(r) == 1.0 &&
            forall k :: k in m ==> (r[k] > 0.0 <==> NearZero(Sum(m)) || m[k] > 0.0)
  {
    hide Times, Over, Sum;
    var total, n := Sum(m), |m| as real;
    SumNonnegative(m);
    assert |m| > 0;
    OverIsTimes(0.0, n);
    if NearZero(total) {
      forall x: real ensures Times(0.0, x) == 0.0 { OverIsTimes(x, n); }
      assert Normalize(m) == Affine(m, Over(1.0, n), 0.0);
      SumAffine(m, Over(1.0, n), 0.0);
    } else {
      forall x: real ensures Over(x, total) == 0.0 + Times(Over(1.0, total), x)
                     ensures x >= 0.0 ==> Over(x, total) >= 0.0 && (Over(x, total) > 0.0 <==> x > 0.0)
      {
        OverIsTimes(x, total);
      }
      assert Normalize(m) == Affine(m, 0.0, Over(1.0, total));
      SumAffine(m, 0.0, Over(1.0, total));
      OverIsTimes(n, total);
    }
  }

  /** One round keeps the peers, gives scores that sum to 1 and is positive exactly as stated. */
  lemma ComputeSums(alpha: real, nodes: Registry, prev: Scores)
    requires 0.0 <= alpha <= 1.0 && Sound(nodes) && Nonnegative(prev)
    ensures Compute(alpha, nodes, prev).Keys == nodes.Keys && Nonnegative(Compute(alpha, nodes, prev))
    ensures nodes != map[] ==> Sum(Compute(alpha, nodes, prev)) == 1.0
    ensures forall i :: i in nodes ==>
                          (Compute(alpha, nodes, prev)[i] > 0.0 <==>
                           || NearZero(Sum(Raw(alpha, nodes, prev))) || alpha < 1.0
                           || Sum(Weighted(nodes[i].local, prev)) > 0.0)
  {
    hide Sum, Mix, Weighted;
    var raw := Raw(alpha, nodes, prev);
    forall i | i in nodes
      ensures raw[i] >= 0.0 && (raw[i] > 0.0 <==> alpha < 1.0 || Sum(Weighted(nodes[i].local, prev)) > 0.0)
    {
      RawBounds(alpha, nodes, prev, i);
    }
    if nodes != map[] {
      assert raw.Keys == nodes.Keys;
      NormalizeSums(raw);
    }
  }

  // ---------------------------------------------------------------- what a score depends on

  /** The registry with one local score of one peer changed. */
  function Rated(nodes: Registry, i: Id, j: Id, x: real): Registry
    requires i in nodes
  {
    nodes[i := nodes[i].(local := nodes[i].local[j := x])]
  }

  lemma WeightedTake(local: Scores, prev: Scores, j: Id, x: real)
    ensures var w := Weighted(local[j := x], prev);
            j in w && w[j] == Times(x, Get(prev, j)) && w - {j} == Weighted(local - {j}, prev)
  {
    hide Times;
  }

  lemma WeightedOne(local: Scores, prev: Scores, j: Id, x: real)
    ensures Sum(Weighted(local[j := x], prev)) == Sum(Weighted(local - {j}, prev)) + Times(x, Get(prev, j))
  {
    hide Times, Weighted, Sum;
    WeightedTake(local, prev, j, x);
    SumTake(Weighted(local[j := x], prev), j);
  }

  /** How much the weighted sum of a peer gains by one changed local score. */
  lemma WeightedGain(local: Scores, prev: Scores, j: Id, x: real)
    ensures Sum(Weighted(local[j := x], prev)) - Sum(Weighted(local, prev)) ==
            Times(x, Get(prev, j)) - Times(Get(local, j), Get(prev, j))
  {
    hide Times, Weighted, Sum;
    WeightedOne(local, prev, j, x);
    if j in local {
      WeightedOne(local, prev, j, local[j]);
      assert local[j := local[j]] == local;
    } else {
      assert local - {j} == local;
      TimesZero(Get(prev, j), 0.0);
    }
  }

  /** A peer that rates nobody keeps only the damped part of its trust. */
  lemma RawOfSilent(alpha: real, nodes: Registry, prev: Scores, i: Id)
    requires i in nodes && nodes[i].local == map[]
    ensures Raw(alpha, nodes, prev)[i] == (1.0 - alpha) * nodes[i].global
  {
    assert Weighted(nodes[i].local, prev) == map[];
  }

  /** Changing one local score moves the peer's own raw score by its damped, weighted difference, and no other. */
  lemma RawResponds(alpha: real, nodes: Registry, prev: Scores, i: Id, j: Id, x: real)
    requires i in nodes
    ensures var y := if j in nodes[i].local then nodes[i].local[j] else 0.0;
            Raw(alpha, Rated(nodes, i, j, x), prev)[i] - Raw(alpha, nodes, prev)[i] ==
            if j in prev then alpha * (x - y) * prev[j] else 0.0
    ensures forall k :: k in nodes && k != i ==> Raw(alpha, Rated(nodes, i, j, x), prev)[k] == Raw(alpha, nodes, prev)[k]
  {
    hide Sum, Weighted, Mix, Times;
    var local := nodes[i].local;
    WeightedGain(local, prev, j, x);
    MixDifference(alpha, Sum(Weighted(local[j := x], prev)), Sum(Weighted(local, prev)),
                  x, Get(local, j), Get(prev, j), nodes[i].global);
  }

  lemma MixDifference(alpha: real, v: real, w: real, x: real, y: real, t: real, g: real)
    requires v - w == Times(x, t) - Times(y, t)
    ensures Mix(alpha, v, g) - Mix(alpha, w, g) == alpha * (x - y) * t
    ensures t == 0.0 ==> Mix(alpha, v, g) == Mix(alpha, w, g)
  {
    assert v - w == (x - y) * t;
    assert alpha * v - alpha * w == alpha * (v - w);
  }

  /** Normalising keeps the ratios of the scores; near zero all scores become equal. */
  lemma NormalizeKeepsRatios(m: Scores, a: Id, b: Id)
    requires a in m && b in m
    ensures NearZero(Sum(m)) <==> Abs(Sum(m)) * 4_503_599_627_370_496.0 < 1.0
    ensures NearZero(Sum(m)) ==> Normalize(m)[a] == Normalize(m)[b] && Normalize(m)[a] * |m| as real == 1.0
    ensures !NearZero(Sum(m)) ==> Normalize(m)[a] * m[b] == Normalize(m)[b] * m[a]
    ensures !NearZero(Sum(m)) ==> Normalize(m)[a] * Sum(m) == m[a]
  {
    hide Sum;
    var total := Sum(m);
    if NearZero(total) {
      assert |m| > 0;
    } else {
      Proportional(m[a], m[b], total);
    }
  }

  /** A round divides the raw scores by their sum, or gives everybody the same. */
  lemma ComputeKeepsRatios(alpha: real, nodes: Registry, prev: Scores, a: Id, b: Id)
    requires a in nodes && b in nodes
    ensures var raw, r := Raw(alpha, nodes, prev), Compute(alpha, nodes, prev);
            if NearZero(Sum(raw)) then r[a] == r[b] && r[a] * |nodes| as real == 1.0
            else r[a] * raw[b] == r[b] * raw[a] && r[a] * Sum(raw) == raw[a]
  {
    hide Sum, Normalize, Raw;
    var raw := Raw(alpha, nodes, prev);
    NormalizeKeepsRatios(raw, a, b);
    assert |raw| == |raw.Keys| == |nodes.Keys| == |nodes|;
  }

  lemma Proportional(x: real, y: real, total: real)
    requires total != 0.0
    ensures Over(x, total) * y == Over(y, total) * x && Over(x, total) * total == x
  {
    var p, q := x / total, y / total;
    assert p * total == x && q * total == y;
    assert p * y == p * (q * total) == (p * total) * q;
  }

  // ---------------------------------------------------------------- a floor under every score

  function Globals(nodes: Registry): (g: Scores)
    ensures g.Keys == nodes.Keys
  {
    map i | i in nodes :: nodes[i].global
  }

  /** What the raw scores of a round can add up to at most, with `all` trust in circulation. */
  function Ceiling(alpha: real, nodes: Registry, all: real): real {
    Times(|nodes| as real, Times(alpha, all)) + Times(1.0 - alpha, Sum(Globals(nodes)))
  }

  lemma RawTotal(alpha: real, nodes: Registry, prev: Scores)
    requires 0.0 <= alpha <= 1.0 && Sound(nodes) && Nonnegative(prev)
    ensures 0.0 <= Sum(Raw(alpha, nodes, prev)) <= Ceiling(alpha, nodes, Sum(prev))
  {
    hide Sum, Weighted, Times, Mix, Raw;
    var raw, g := Raw(alpha, nodes, prev), Globals(nodes);
    var bound := Affine(g, Times(alpha, Sum(prev)), 1.0 - alpha);
    forall i | i in nodes ensures 0.0 <= raw[i] <= bound[i] {
      RawBounds(alpha, nodes, prev, i);
      MixParts(alpha, Sum(prev), nodes[i].global);
    }
    hide Affine;
    SumNonnegative(raw);
    SumBelow(raw, bound);
    SumAffine(g, Times(alpha, Sum(prev)), 1.0 - alpha);
    assert |g| == |g.Keys| == |nodes.Keys| == |nodes|;
  }

  lemma MixParts(alpha: real, weighted: real, global: real)
    ensures Mix(alpha, weighted, global) == Times(alpha, weighted) + Times(1.0 - alpha, global)
    ensures Mix(alpha, 0.0, global) == Times(1.0 - alpha, global)
    ensures 0.0 <= alpha <= 1.0 && global > 0.0 ==> Times(1.0 - alpha, global) >= 0.0
  {
    if 0.0 <= alpha <= 1.0 && global > 0.0 { ProductSign(1.0 - alpha, global); }
  }

  lemma OverMonotone(a: real, x: real, y: real, b: real)
    requires 0.0 <= a <= x && 0.0 < y <= b
    ensures Over(a, b) <= Over(x, y)
  {
    var q := a / b;
    ProductSign(q, b - y);
    assert q * y <= a;
  }

  /** Outside the near-zero branch, each score keeps at least its damped share of the trust it had. */
  lemma ScoreFloor(alpha: real, nodes: Registry, prev: Scores, i: Id)
    requires 0.0 <= alpha <= 1.0 && Sound(nodes) && Nonnegative(prev) && i in nodes
    requires !NearZero(Sum(Raw(alpha, nodes, prev)))
    ensures Ceiling(alpha, nodes, Sum(prev)) > 0.0
    ensures Compute(alpha, nodes, prev)[i] >= Over(Times(1.0 - alpha, nodes[i].global), Ceiling(alpha, nodes, Sum(prev)))
  {
    hide Mix, Times, Over, Sum, Ceiling, Raw;
    RawTotal(alpha, nodes, prev);
    RawBounds(alpha, nodes, prev, i);
    MixParts(alpha, 0.0, nodes[i].global);
    OverMonotone(Times(1.0 - alpha, nodes[i].global), Raw(alpha, nodes, prev)[i],
                 Sum(Raw(alpha, nodes, prev)), Ceiling(alpha, nodes, Sum(prev)));
  }

  // ---------------------------------------------------------------- rounds

  function Abs(x: real): real { if x < 0.0 then -x else x }

  /** The largest change from one vector to the next; every old key must still be there. */
  function MaxDiff(prev: Scores, cur: Scores): real
    requires prev.Keys <= cur.Keys
    decreases prev.Keys
  {
    if prev == map[] then 0.0
    else
      assert prev.Keys != {};
      var k := Least(prev.Keys);
      var rest := MaxDiff(prev - {k}, cur);
      if Abs(cur[k] - prev[k]) > rest then Abs(cur[k] - prev[k]) else rest
  }

  lemma {:induction false} MaxDiffBelow(prev: Scores, cur: Scores, bound: real)
    requires prev.Keys <= cur.Keys && bound > 0.0
    ensures MaxDiff(prev, cur) < bound <==> forall k :: k in prev ==> Abs(cur[k] - prev[k]) < bound
    decreases prev.Keys
  {
    if prev != map[] {
      var j := Least(prev.Keys);
      MaxDiffBelow(prev - {j}, cur, bound);
      assert forall k :: k in prev ==> k == j || k in prev - {j};
    }
  }

  /** Up to `left` rounds, stopping after the first that changes no score by the threshold. */
  function Rounds(alpha: real, nodes: Registry, prev: Scores, left: nat): (r: Scores)
    requires left > 0 && prev.Keys <= nodes.Keys
    ensures r.Keys == nodes.Keys
    decreases left
  {
    var cur := Compute(alpha, nodes, prev);
    if left == 1 || MaxDiff(prev, cur) < CONVERGENCE_THRESHOLD then cur
    else Rounds(alpha, nodes, cur, left - 1)
  }

  /** The vector after `k` rounds. */
  function Iterate(alpha: real, nodes: Registry, prev: Scores, k: nat): (r: Scores)
    requires prev.Keys <= nodes.Keys
    ensures r.Keys <= nodes.Keys && (k > 0 ==> r.Keys == nodes.Keys)
  {
    if k == 0 then prev else Compute(alpha, nodes, Iterate(alpha, nodes, prev, k - 1))
  }

  /** Round `j` moves some score by the threshold or more. */
  ghost predicate StillMoving(alpha: real, nodes: Registry, prev: Scores, j: nat)
    requires prev.Keys <= nodes.Keys
  {
    var a, b := Iterate(alpha, nodes, prev, j), Iterate(alpha, nodes, prev, j + 1);
    exists i :: i in a && Abs(b[i] - a[i]) >= 0.000_000_001
  }

  lemma {:induction false} IterateShift(alpha: real, nodes: Registry, prev: Scores, k: nat)
    requires prev.Keys <= nodes.Keys
    ensures Iterate(alpha, nodes, prev, k + 1) == Iterate(alpha, nodes, Compute(alpha, nodes, prev), k)
  {
    hide Compute;
    if k == 0 {
      assert Iterate(alpha, nodes, prev, 0) == prev;
    } else {
      IterateShift(alpha, nodes, prev, k - 1);
    }
  }

  lemma MovingShift(alpha: real, nodes: Registry, prev: Scores, j: nat)
    requires prev.Keys <= nodes.Keys
    ensures StillMoving(alpha, nodes, prev, j + 1) == StillMoving(alpha, nodes, Compute(alpha, nodes, prev), j)
  {
    hide Compute, Iterate, Abs;
    IterateShift(alpha, nodes, prev, j);
    IterateShift(alpha, nodes, prev, j + 1);
  }

  lemma MovingFirst(alpha: real, nodes: Registry, prev: Scores)
    requires prev.Keys <= nodes.Keys
    ensures StillMoving(alpha, nodes, prev, 0) <==>
            MaxDiff(prev, Compute(alpha, nodes, prev)) >= CONVERGENCE_THRESHOLD
    ensures Iterate(alpha, nodes, prev, 1) == Compute(alpha, nodes, prev)
  {
    hide Compute, MaxDiff, Abs;
    assert Iterate(alpha, nodes, prev, 0) == prev;
    MaxDiffBelow(prev, Compute(alpha, nodes, prev), CONVERGENCE_THRESHOLD);
  }

  /** The rounds stop after round `k`: the first that moves no score by the threshold, or else the last allowed. */
  ghost predicate StopsAfter(alpha: real, nodes: Registry, prev: Scores, left: nat, k: nat)
    requires prev.Keys <= nodes.Keys
  {
    && 1 <= k <= left
    && (forall j :: 0 <= j < k - 1 ==> StillMoving(alpha, nodes, prev, j))
    && (k == left || !StillMoving(alpha, nodes, prev, k - 1))
  }

  /** The result is the vector after exactly as many rounds as the stopping rule asks for. */
  lemma {:induction false} RoundsStop(alpha: real, nodes: Registry, prev: Scores, left: nat) returns (k: nat)
    requires left > 0 && prev.Keys <= nodes.Keys
    ensures StopsAfter(alpha, nodes, prev, left, k)
    ensures Rounds(alpha, nodes, prev, left) == Iterate(alpha, nodes, prev, k)
    decreases left
  {
    hide Compute, MaxDiff, StillMoving, Iterate;
    var cur := Compute(alpha, nodes, prev);
    MovingFirst(alpha, nodes, prev);
    if left == 1 || MaxDiff(prev, cur) < CONVERGENCE_THRESHOLD {
      k := 1;
    } else {
      var k' := RoundsStop(alpha, nodes, cur, left - 1);
      k := k' + 1;
      IterateShift(alpha, nodes, prev, k');
      MovingShift(alpha, nodes, prev, k' - 1);
      forall j | 0 <= j < k - 1 ensures StillMoving(alpha, nodes, prev, j) {
        if j > 0 { MovingShift(alpha, nodes, prev, j - 1); }
      }
    }
  }

  /** The vector that the last round started from. */
  lemma {:induction false} LastRound(alpha: real, nodes: Registry, prev: Scores, left: nat) returns (last: Scores)
    requires left > 0 && prev.Keys <= nodes.Keys
    requires 0.0 <= alpha <= 1.0 && Sound(nodes) && Nonnegative(prev)
    ensures Rounds(alpha, nodes, prev, left) == Compute(alpha, nodes, last)
    ensures Nonnegative(last) && (last == prev || nodes == map[] || Sum(last) == 1.0)
    decreases left
  {
    hide Compute, Sum, MaxDiff;
    last := prev;
    var cur := Compute(alpha, nodes, prev);
    ComputeSums(alpha, nodes, prev);
    if left > 1 && MaxDiff(prev, cur) >= CONVERGENCE_THRESHOLD {
      last := LastRound(alpha, nodes, cur, left - 1);
    }
  }

  /** A round keeps at least the damped part of the trust there was. */
  lemma RawAtLeast(alpha: real, nodes: Registry, prev: Scores)
    requires 0.0 <= alpha <= 1.0 && Sound(nodes) && Nonnegative(prev)
    ensures Sum(Raw(alpha, nodes, prev)) >= Times(1.0 - alpha, Sum(Globals(nodes)))
  {
    hide Sum, Weighted, Times, Mix, Raw;
    var raw, g := Raw(alpha, nodes, prev), Globals(nodes);
    var damped := Affine(g, 0.0, 1.0 - alpha);
    forall i | i in nodes ensures 0.0 <= raw[i] && damped[i] <= raw[i] {
      RawBounds(alpha, nodes, prev, i);
      MixParts(alpha, 0.0, nodes[i].global);
    }
    hide Affine;
    SumBelow(damped, raw);
    SumAffine(g, 0.0, 1.0 - alpha);
    TimesZero(0.0, |g| as real);
  }

  /** With at least 1 in circulation and damping above rounding, the near-zero branch is never taken. */
  lemma NeverNearZero(alpha: real, nodes: Registry, prev: Scores)
    requires 0.0 <= alpha && 1.0 - alpha >= EPSILON && Sound(nodes) && Nonnegative(prev)
    requires Sum(Globals(nodes)) >= 1.0
    ensures !NearZero(Sum(Raw(alpha, nodes, prev)))
  {
    hide Sum, Raw;
    RawAtLeast(alpha, nodes, prev);
    var all := Sum(Globals(nodes));
    ProductSign(1.0 - alpha, all - 1.0);
    assert Times(1.0 - alpha, all) == (1.0 - alpha) * (all - 1.0) + (1.0 - alpha);
  }

  /** However many rounds are taken, the outcome is positive, sums to 1 and respects the floor. */
  lemma RoundsSound(alpha: real, nodes: Registry, prev: Scores, left: nat) returns (last: Scores)
    requires left > 0 && prev.Keys <= nodes.Keys
    requires 0.0 <= alpha < 1.0 && Sound(nodes) && Nonnegative(prev)
    ensures Positive(Rounds(alpha, nodes, prev, left))
    ensures nodes != map[] ==> Sum(Rounds(alpha, nodes, prev, left)) == 1.0
    ensures Rounds(alpha, nodes, prev, left) == Compute(alpha, nodes, last)
    ensures Nonnegative(last) && (last == prev || nodes == map[] || Sum(last) == 1.0)
    ensures forall i :: i in nodes && !NearZero(Sum(Raw(alpha, nodes, last))) ==>
                          && Ceiling(alpha, nodes, Sum(last)) > 0.0
                          && Rounds(alpha, nodes, prev, left)[i] >=
                             Over(Times(1.0 - alpha, nodes[i].global), Ceiling(alpha, nodes, Sum(last)))
  {
    hide Sum, Compute, Rounds, Ceiling, Raw, Over;
    last := LastRound(alpha, nodes, prev, left);
    ComputeSums(alpha, nodes, last);
    forall i | i in nodes && !NearZero(Sum(Raw(alpha, nodes, last)))
      ensures Ceiling(alpha, nodes, Sum(last)) > 0.0
      ensures Compute(alpha, nodes, last)[i] >=
              Over(Times(1.0 - alpha, nodes[i].global), Ceiling(alpha, nodes, Sum(last)))
    {
      ScoreFloor(alpha, nodes, last, i);
    }
  }

  // ---------------------------------------------------------------- the engine

  function Clamp(x: real): real { if x < 0.0 then 0.0 else if x > 1.0 then 1.0 else x }

  function Distance(x: real, y: real): real { Abs(x - y) }

  /** `c` is the point of [0, 1] nearest to `x`. */
  ghost predicate NearestTo(c: real, x: real) {
    0.0 <= c <= 1.0 && forall y :: 0.0 <= y <= 1.0 ==> Distance(c, x) <= Distance(y, x)
  }

  lemma ClampIsNearest(x: real)
    ensures NearestTo(Clamp(x), x)
  {}

  /** A signed interaction of a known peer moves one local score, within [0, 1]. */
  function Interact(nodes: Registry, source: Id, target: Id, score: real): Registry
    requires source in nodes
  {
    var local := nodes[source].local;
    nodes[source := nodes[source].(local := local[target := Clamp(Get(local, target) + score)])]
  }

  function Update(alpha: real, nodes: Registry): Registry {
    var r := Rounds(alpha, nodes, Globals(nodes), MAX_ITERATIONS);
    map i | i in nodes :: nodes[i].(global := r[i])
  }

  ghost predicate Balanced(nodes: Registry) {
    nodes == map[] || Sum(Globals(nodes)) == 1.0
  }

  lemma InteractSound(nodes: Registry, source: Id, target: Id, score: real)
    requires Sound(nodes) && source in nodes
    ensures Sound(Interact(nodes, source, target, score))
    ensures Globals(Interact(nodes, source, target, score)) == Globals(nodes)
  {}

  lemma UpdateSound(alpha: real, nodes: Registry)
    requires 0.0 <= alpha < 1.0 && Sound(nodes)
    ensures Sound(Update(alpha, nodes)) && Balanced(Update(alpha, nodes))
    ensures Update(alpha, nodes).Keys == nodes.Keys
    ensures forall i :: i in nodes ==> Update(alpha, nodes)[i].local == nodes[i].local
  {
    hide Sum, Rounds;
    var r := Rounds(alpha, nodes, Globals(nodes), MAX_ITERATIONS);
    var last := RoundsSound(alpha, nodes, Globals(nodes), MAX_ITERATIONS);
    assert Globals(Update(alpha, nodes)) == r;
    if nodes == map[] { assert Update(alpha, nodes) == map[]; }
  }

  /** What the raw scores of a round over balanced trust can add up to at most. */
  function Spread(alpha: real, n: nat): real { alpha * n as real + 1.0 - alpha }

  /** The share of its trust that a peer keeps for sure in a balanced registry. */
  function Floor(alpha: real, nodes: Registry, i: Id): real
    requires i in nodes && 0.0 <= alpha < 1.0
  {
    SpreadPositive(alpha, |nodes|);
    Over(Times(1.0 - alpha, nodes[i].global), Spread(alpha, |nodes|))
  }

  lemma SpreadPositive(alpha: real, n: nat)
    requires 0.0 <= alpha < 1.0
    ensures Spread(alpha, n) > 0.0
  {
    ProductSign(alpha, n as real);
  }

  lemma BalancedCeiling(alpha: real, nodes: Registry, all: real)
    requires Balanced(nodes) && nodes != map[] && all == 1.0
    ensures Ceiling(alpha, nodes, all) == Spread(alpha, |nodes|)
  {
    hide Sum;
  }

  lemma AtMostSum(m: Scores, k: Id)
    requires Nonnegative(m) && k in m
    ensures m[k] <= Sum(m)
  {
    SumTake(m, k);
    SumNonnegative(m - {k});
  }

  lemma DampedBelow(alpha: real, g: real)
    requires 0.5 <= alpha < 1.0 && 0.0 < g <= 1.0
    ensures 0.0 <= Times(1.0 - alpha, g) <= alpha
  {
    ProductSign(1.0 - alpha, g);
    ProductSign(1.0 - alpha, 1.0 - g);
    assert (1.0 - alpha) * (1.0 - g) == (1.0 - alpha) - (1.0 - alpha) * g;
  }

  /** With alpha at least one half, an equal share is at least the floor. */
  lemma FloorBelowShare(alpha: real, g: real, n: nat)
    requires 0.5 <= alpha < 1.0 && 0.0 < g <= 1.0 && n > 0
    ensures Spread(alpha, n) > 0.0 && Over(Times(1.0 - alpha, g), Spread(alpha, n)) <= Over(1.0, n as real)
  {
    hide Times, Over;
    DampedBelow(alpha, g);
    var y := alpha * n as real;
    OverCancel(alpha, n as real, y);
    OverMonotone(Times(1.0 - alpha, g), alpha, y, Spread(alpha, n));
  }

  lemma OverCancel(a: real, n: real, y: real)
    requires a > 0.0 && n > 0.0 && y == a * n
    ensures y > 0.0 && Over(a, y) == Over(1.0, n)
  {
    var q := 1.0 / n;
    assert q * n == 1.0;
    assert q * (a * n) == a * (q * n);
  }

  /** The near-zero branch needs alpha close to 1, and the equal shares it gives out are above the floor. */
  lemma NearZeroFloor(alpha: real, nodes: Registry, last: Scores, i: Id)
    requires 0.0 <= alpha < 1.0 && Sound(nodes) && Balanced(nodes) && Nonnegative(last) && i in nodes
    requires NearZero(Sum(Raw(alpha, nodes, last)))
    ensures Compute(alpha, nodes, last)[i] >= Floor(alpha, nodes, i)
  {
    hide Sum, Raw, Times, Over, Spread;
    var raw := Raw(alpha, nodes, last);
    assert |raw| == |raw.Keys| == |nodes.Keys| == |nodes|;
    if 1.0 - alpha >= EPSILON {
      NeverNearZero(alpha, nodes, last);
      assert false;
    }
    assert Compute(alpha, nodes, last)[i] == Over(1.0, |raw| as real);
    AtMostSum(Globals(nodes), i);
    assert alpha >= 0.5;
    FloorBelowShare(alpha, nodes[i].global, |nodes|);
  }

  /** After a first update, each further one leaves every peer at least its floor. */
  lemma UpdateFloor(alpha: real, nodes: Registry, i: Id)
    requires 0.0 <= alpha < 1.0 && Sound(nodes) && Balanced(nodes) && i in nodes
    ensures Update(alpha, nodes)[i].global >= Floor(alpha, nodes, i)
  {
    hide Sum, Rounds, Raw, Ceiling, Times, Over, Compute, Spread;
    var prev := Globals(nodes);
    var last := RoundsSound(alpha, nodes, prev, MAX_ITERATIONS);
    if NearZero(Sum(Raw(alpha, nodes, last))) {
      NearZeroFloor(alpha, nodes, last, i);
    } else {
      BalancedCeiling(alpha, nodes, Sum(last));
    }
  }

  datatype Reply = Accepted | NodeNotFound | BadSignature

  class ReputationEngine {
    const alpha: real
    var nodes: Registry

    /** Every loaded peer starts with global trust 1. */
    constructor (alpha: real, loaded: map<Id, Scores>)
      ensures this.alpha == alpha && nodes == map i | i in loaded :: Peer(loaded[i], 1.0)
    {
      this.alpha := alpha;
      nodes := map i | i in loaded :: Peer(loaded[i], 1.0);
    }

    method AddInteraction(source: Id, target: Id, score: real, signed: bool) returns (reply: Reply)
      modifies this
      ensures reply == if source !in old(nodes) then NodeNotFound else if !signed then BadSignature else Accepted
      ensures nodes == if reply.Accepted? then Interact(old(nodes), source, target, score) else old(nodes)
      ensures old(Sound(nodes)) ==> Sound(nodes) && Globals(nodes) == old(Globals(nodes))
      ensures reply.Accepted? ==>
                NearestTo(Get(nodes[source].local, target), Get(old(nodes)[source].local, target) + score)
    {
      if source !in nodes { return NodeNotFound; }
      if !signed { return BadSignature; }
      var local := nodes[source].local;
      if target !in local { local := local[target := 0.0]; }
      local := local[target := Clamp(local[target] + score)];
      if Sound(nodes) { InteractSound(nodes, source, target, score); }
      assert local == nodes[source].local[target := Clamp(Get(nodes[source].local, target) + score)];
      ClampIsNearest(Get(nodes[source].local, target) + score);
      nodes := nodes[source := nodes[source].(local := local)];
      return Accepted;
    }

    method UpdateTrust()
      modifies this
      ensures nodes == Update(alpha, old(nodes))
      ensures exists k :: && StopsAfter(alpha, old(nodes), old(Globals(nodes)), 100, k)
                          && Globals(nodes) == Iterate(alpha, old(nodes), old(Globals(nodes)), k)
      ensures 0.0 <= alpha < 1.0 && old(Sound(nodes)) ==> Sound(nodes) && Balanced(nodes)
      ensures 0.0 <= alpha < 1.0 && old(Sound(nodes) && Balanced(nodes)) ==>
                forall id :: id in old(nodes) ==> nodes[id].global >= Floor(alpha, old(nodes), id)
    {
      hide Compute, Sum, MaxDiff, Sound, Balanced, Floor, StopsAfter, Iterate;
      var current := Globals(nodes);
      var i, settled := 0, false;
      while i < MAX_ITERATIONS && !settled
        invariant 0 <= i <= MAX_ITERATIONS && current.Keys == nodes.Keys && nodes == old(nodes)
        invariant settled || i == MAX_ITERATIONS ==> current == Rounds(alpha, nodes, Globals(nodes), MAX_ITERATIONS)
        invariant !settled && i < MAX_ITERATIONS ==>
                    Rounds(alpha, nodes, current, MAX_ITERATIONS - i) == Rounds(alpha, nodes, Globals(nodes), MAX_ITERATIONS)
        decreases MAX_ITERATIONS - i
      {
        var prev := current;
        current := Compute(alpha, nodes, prev);
        settled := MaxDiff(prev, current) < CONVERGENCE_THRESHOLD;
        i := i + 1;
      }
      if 0.0 <= alpha < 1.0 && Sound(nodes) { UpdateSound(alpha, nodes); }
      if 0.0 <= alpha < 1.0 && Sound(nodes) && Balanced(nodes) {
        forall id | id in nodes ensures Update(alpha, nodes)[id].global >= Floor(alpha, nodes, id) {
          UpdateFloor(alpha, nodes, id);
        }
      }
      ghost var k := RoundsStop(alpha, nodes, Globals(nodes), MAX_ITERATIONS);
      nodes := map id | id in nodes :: nodes[id].(global := current[id]);
      assert Globals(nodes) == current;
    }
  }

  // ---------------------------------------------------------------- whole runs

  datatype Operation =
    | Interaction(source: Id, target: Id, score: real, signed: bool)
    | TrustUpdate

  function Apply(alpha: real, nodes: Registry, op: Operation): Registry {
    match op
    case Interaction(source, target, score, signed) =>
      if source in nodes && signed then Interact(nodes, source, target, score) else nodes
    case TrustUpdate => Update(alpha, nodes)
  }

  function Run(alpha: real, nodes: Registry, ops: seq<Operation>): Registry {
    if ops == [] then nodes else Apply(alpha, Run(alpha, nodes, ops[..|ops| - 1]), ops[|ops| - 1])
  }

  /** Over every sequence of interactions and updates trust stays sound, and once updated it sums to 1. */
  lemma {:induction false} RunsStaySound(alpha: real, nodes: Registry, ops: seq<Operation>)
    requires 0.0 <= alpha < 1.0 && Sound(nodes)
    ensures Sound(Run(alpha, nodes, ops)) && Run(alpha, nodes, ops).Keys == nodes.Keys
    ensures TrustUpdate in ops ==> Balanced(Run(alpha, nodes, ops))
  {
    hide Sum, Update, Sound, Interact;
    if ops != [] {
      var before := Run(alpha, nodes, ops[..|ops| - 1]);
      RunsStaySound(alpha, nodes, ops[..|ops| - 1]);
      assert ops == ops[..|ops| - 1] + [ops[|ops| - 1]];
      match ops[|ops| - 1] {
        case TrustUpdate => UpdateSound(alpha, before);
        case Interaction(source, target, score, signed) =>
          if source in before && signed {
            InteractSound(before, source, target, score);
            assert Globals(Interact(before, source, target, score)).Keys == before.Keys;
          }
      }
    }
  }

  /** In every run, an update that is not the first leaves every peer at least its floor. */
  lemma RunsKeepFloor(alpha: real, nodes: Registry, ops: seq<Operation>, i: Id)
    requires 0.0 <= alpha < 1.0 && Sound(nodes) && TrustUpdate in ops && i in nodes
    ensures i in Run(alpha, nodes, ops)
    ensures Update(alpha, Run(alpha, nodes, ops))[i].global >= Floor(alpha, Run(alpha, nodes, ops), i)
  {
    hide Run, Update, Floor, Sound, Balanced;
    RunsStaySound(alpha, nodes, ops);
    UpdateFloor(alpha, Run(alpha, nodes, ops), i);
  }
}
