/**
The combinatorial auction: the winner-determination program, an exact optimum for it, the payments
the engine computes and the Vickrey-Clarke-Groves payments its documentation names.
A choice `x` says for every bid whether its 0/1 variable is 1.
*/
module Auction {

  type Bidder = nat

  datatype RawBid = RawBid(bidder: Bidder, package: set<int>, value: real, nonce: nat)

  /** Bids are only built with a positive value. */
  type Bid = b: RawBid | b.value > 0.0 witness RawBid(0, {}, 1.0, 0)

  type Choice = seq<bool>

  // ---------------------------------------------------------------- bid validation

  function Key(b: Bid): (set<int>, Bidder, nat) { (b.package, b.bidder, b.nonce) }

  ghost predicate SameBid(a: Bid, b: Bid) {
    a.package == b.package && a.bidder == b.bidder && a.nonce == b.nonce
  }

  /** `_validate_bids`: refuses a list that holds a package, bidder and nonce twice. */
  method ValidateBids(bids: seq<Bid>) returns (ok: bool)
    ensures ok <==> forall i, j :: 0 <= i < j < |bids| ==> !SameBid(bids[i], bids[j])
  {
    var seen: set<(set<int>, Bidder, nat)> := {};
    for k := 0 to |bids|
      invariant seen == set i | 0 <= i < k :: Key(bids[i])
      invariant forall i, j :: 0 <= i < j < k ==> !SameBid(bids[i], bids[j])
    {
      if Key(bids[k]) in seen {
        return false;
      }
      seen := seen + {Key(bids[k])};
    }
    return true;
  }

  // ---------------------------------------------------------------- the optimisation model

  /** How many chosen bids hold the item: the left-hand side of the item's constraint. */
  ghost function Row(bids: seq<Bid>, x: Choice, item: int): nat
    requires |x| == |bids|
  {
    if bids == [] then 0
    else (if x[0] && item in bids[0].package then 1 else 0) + Row(bids[1..], x[1..], item)
  }

  /** The objective: the total value of the chosen bids. */
  function Welfare(bids: seq<Bid>, x: Choice): (w: real)
    requires |x| == |bids|
    ensures w >= 0.0
  {
    if bids == [] then 0.0 else (if x[0] then bids[0].value else 0.0) + Welfare(bids[1..], x[1..])
  }

  /** The objective starts at 0 and gains the value of each bid that is chosen in addition. */
  lemma {:induction false} WelfareGains(bids: seq<Bid>, x: Choice, i: nat)
    requires |x| == |bids|
    ensures (forall k :: 0 <= k < |x| ==> !x[k]) ==> Welfare(bids, x) == 0.0
    ensures i < |x| && !x[i] ==> Welfare(bids, x[i := true]) == Welfare(bids, x) + bids[i].value
  {
    if bids != [] {
      WelfareGains(bids[1..], x[1..], if i == 0 then 0 else i - 1);
      if 0 < i < |x| { assert x[i := true][1..] == x[1..][i - 1 := true]; }
      if i == 0 { assert x[0 := true][1..] == x[1..]; }
    }
  }

  /** A choice that meets every item constraint, with the bids of `out` held at 0. */
  ghost predicate Allowed(items: set<int>, bids: seq<Bid>, out: set<Bidder>, x: Choice) {
    && |x| == |bids|
    && (forall item :: item in items ==> Row(bids, x, item) <= 1)
    && (forall i :: 0 <= i < |bids| && bids[i].bidder in out ==> !x[i])
  }

  /** What the solver returns: some allowed choice of greatest welfare. */
  ghost predicate Optimal(items: set<int>, bids: seq<Bid>, out: set<Bidder>, x: Choice) {
    && Allowed(items, bids, out, x)
    && (forall y :: Allowed(items, bids, out, y) ==> Welfare(bids, y) <= Welfare(bids, x))
  }

  predicate Apart(a: set<int>, b: set<int>) {
    forall item :: item in a ==> item !in b
  }

  /** Chosen bids stay clear of items already taken. */
  ghost predicate Clear(bids: seq<Bid>, taken: set<int>, x: Choice)
    requires |x| == |bids|
  {
    forall i :: 0 <= i < |bids| && x[i] ==> Apart(bids[i].package, taken)
  }

  lemma {:induction false} RowZeroMeansClear(bids: seq<Bid>, taken: set<int>, x: Choice)
    requires |x| == |bids|
    ensures Clear(bids, taken, x) <==> forall item :: item in taken ==> Row(bids, x, item) == 0
  {
    if bids != [] {
      RowZeroMeansClear(bids[1..], taken, x[1..]);
      assert Clear(bids, taken, x) <==> (x[0] ==> Apart(bids[0].package, taken)) && Clear(bids[1..], taken, x[1..]) by {
        assert forall i :: 1 <= i < |bids| ==> bids[i] == bids[1..][i - 1] && x[i] == x[1..][i - 1];
      }
      if Clear(bids, taken, x) {
        assert forall item :: item in taken ==> Row(bids, x, item) == 0;
      } else if x[0] && !Apart(bids[0].package, taken) {
        var item :| item in bids[0].package && item in taken;
        assert Row(bids, x, item) > 0;
      } else {
        var item :| item in taken && Row(bids[1..], x[1..], item) != 0;
        assert Row(bids, x, item) > 0;
      }
    }
  }

  /** Splitting the first bid off an allowed choice. */
  lemma AllowedSplits(items: set<int>, bids: seq<Bid>, out: set<Bidder>, taken: set<int>, x: Choice)
    requires bids != [] && |x| == |bids| && taken <= items
    ensures Allowed(items, bids, out, x) && Clear(bids, taken, x) <==>
            && (x[0] ==> bids[0].bidder !in out && Apart(bids[0].package, taken))
            && Allowed(items, bids[1..], out, x[1..])
            && Clear(bids[1..], if x[0] then taken + bids[0].package * items else taken, x[1..])
  {
    var taken' := if x[0] then taken + bids[0].package * items else taken;
    RowZeroMeansClear(bids[1..], taken', x[1..]);
    assert forall i :: 1 <= i < |bids| ==> bids[i] == bids[1..][i - 1] && x[i] == x[1..][i - 1];
    assert Clear(bids, taken, x) <==> (x[0] ==> Apart(bids[0].package, taken)) && Clear(bids[1..], taken, x[1..]);
    RowZeroMeansClear(bids[1..], taken, x[1..]);
  }

  /** Branching on every bid in turn: take it or leave it, whichever gives more. */
  function Best(items: set<int>, bids: seq<Bid>, out: set<Bidder>, taken: set<int>): (x: Choice)
    ensures |x| == |bids|
  {
    if bids == [] then []
    else
      var leave := [false] + Best(items, bids[1..], out, taken);
      if bids[0].bidder in out || !Apart(bids[0].package, taken) then leave
      else
        var take := [true] + Best(items, bids[1..], out, taken + bids[0].package * items);
        if Welfare(bids, take) >= Welfare(bids, leave) then take else leave
  }

  lemma {:induction false} BestIsOptimal(items: set<int>, bids: seq<Bid>, out: set<Bidder>, taken: set<int>)
    requires taken <= items
    ensures Allowed(items, bids, out, Best(items, bids, out, taken))
    ensures Clear(bids, taken, Best(items, bids, out, taken))
    ensures forall y :: Allowed(items, bids, out, y) && Clear(bids, taken, y) ==>
                          Welfare(bids, y) <= Welfare(bids, Best(items, bids, out, taken))
  {
    if bids != [] {
      var x := Best(items, bids, out, taken);
      var taken' := taken + bids[0].package * items;
      BestIsOptimal(items, bids[1..], out, taken);
      BestIsOptimal(items, bids[1..], out, taken');
      AllowedSplits(items, bids, out, taken, x);
      forall y | Allowed(items, bids, out, y) && Clear(bids, taken, y) ensures Welfare(bids, y) <= Welfare(bids, x) {
        AllowedSplits(items, bids, out, taken, y);
      }
    }
  }

  /** The exact optimum that stands for the solver. */
  method Solve(items: set<int>, bids: seq<Bid>, out: set<Bidder>) returns (x: Choice)
    ensures Optimal(items, bids, out, x)
  {
    x := Best(items, bids, out, {});
    BestIsOptimal(items, bids, out, {});
  }

  // ---------------------------------------------------------------- payments

  /** The value of all bids of one bidder that were chosen. */
  ghost function Won(bids: seq<Bid>, x: Choice, b: Bidder): real
    requires |x| == |bids|
  {
    if bids == [] then 0.0
    else (if x[0] && bids[0].bidder == b then bids[0].value else 0.0) + Won(bids[1..], x[1..], b)
  }

  /** The same choice with the bids of one bidder switched off. */
  ghost function Drop(bids: seq<Bid>, x: Choice, b: Bidder): (y: Choice)
    requires |x| == |bids|
    ensures |y| == |bids|
    ensures forall i :: 0 <= i < |bids| ==> y[i] == (x[i] && bids[i].bidder != b)
  {
    if bids == [] then [] else [x[0] && bids[0].bidder != b] + Drop(bids[1..], x[1..], b)
  }

  lemma {:induction false} DropFigures(bids: seq<Bid>, x: Choice, b: Bidder)
    requires |x| == |bids|
    ensures Welfare(bids, Drop(bids, x, b)) == Welfare(bids, x) - Won(bids, x, b)
    ensures forall item :: Row(bids, Drop(bids, x, b), item) <= Row(bids, x, item)
  {
    if bids != [] { DropFigures(bids[1..], x[1..], b); }
  }

  /** Leaving a bidder out costs nothing less than zero and nothing more than what it had won. */
  lemma ExclusionBounds(items: set<int>, bids: seq<Bid>, b: Bidder, x: Choice, z: Choice)
    requires Optimal(items, bids, {}, x) && Optimal(items, bids, {b}, z)
    ensures Welfare(bids, x) - Won(bids, x, b) <= Welfare(bids, z) <= Welfare(bids, x)
  {
    DropFigures(bids, x, b);
    assert Allowed(items, bids, {b}, Drop(bids, x, b));
    assert Allowed(items, bids, {}, z);
  }

  /** The payment of lines 100 and 101. */
  function EnginePayment(welfare: real, without: real, value: real): real {
    var payment := welfare - (without - value);
    if payment < 0.0 then 0.0 else payment
  }

  /** The externality that the Vickrey-Clarke-Groves rule charges. */
  function VcgPayment(welfare: real, without: real, value: real): real {
    without - (welfare - value)
  }

  /** `k` is the only bid of its bidder. */
  ghost predicate Sole(bids: seq<Bid>, k: nat) {
    k < |bids| && forall j :: 0 <= j < |bids| && j != k ==> bids[j].bidder != bids[k].bidder
  }

  lemma {:induction false} WonBySole(bids: seq<Bid>, x: Choice, k: nat, b: Bidder)
    requires |x| == |bids| && k <= |bids|
    requires forall j :: 0 <= j < |bids| && j != k ==> bids[j].bidder != b
    ensures Won(bids, x, b) == if k < |bids| && bids[k].bidder == b && x[k] then bids[k].value else 0.0
  {
    if bids != [] {
      assert forall j :: 0 <= j < |bids| - 1 ==> bids[1..][j] == bids[j + 1];
      WonBySole(bids[1..], x[1..], if k == 0 then |bids| - 1 else k - 1, b);
    }
  }

  /** Some optimal choice takes no bid of the bidder. */
  ghost predicate Dispensable(items: set<int>, bids: seq<Bid>, b: Bidder) {
    exists y :: Optimal(items, bids, {}, y) && forall j :: 0 <= j < |bids| && bids[j].bidder == b ==> !y[j]
  }

  /** Leaving a bidder out costs nothing exactly if some optimal choice does without it anyway. */
  lemma DispensableIff(items: set<int>, bids: seq<Bid>, b: Bidder, x: Choice, z: Choice)
    requires Optimal(items, bids, {}, x) && Optimal(items, bids, {b}, z)
    ensures Welfare(bids, x) == Welfare(bids, z) <==> Dispensable(items, bids, b)
  {
    hide Welfare, Row;
    ExclusionBounds(items, bids, b, x, z);
    if Welfare(bids, x) == Welfare(bids, z) {
      assert Optimal(items, bids, {}, z);
    }
    if y :| Optimal(items, bids, {}, y) && forall j :: 0 <= j < |bids| && bids[j].bidder == b ==> !y[j] {
      assert Allowed(items, bids, {b}, y);
    }
  }

  /** What a winner pays under the engine's formula, against its bids and against the documented rule. */
  lemma PaymentBounds(items: set<int>, bids: seq<Bid>, x: Choice, z: Choice, i: nat)
    requires i < |bids| && Optimal(items, bids, {}, x) && x[i] && Optimal(items, bids, {bids[i].bidder}, z)
    ensures var w, without, v := Welfare(bids, x), Welfare(bids, z), bids[i].value;
            var paid, vcg := EnginePayment(w, without, v), VcgPayment(w, without, v);
            && paid == w - (without - v)
            && v <= paid <= v + Won(bids, x, bids[i].bidder)
            && vcg <= v
            && paid - vcg == 2.0 * (w - without)
            && (paid == vcg <==> Dispensable(items, bids, bids[i].bidder))
            && (paid == v <==> Dispensable(items, bids, bids[i].bidder))
            && (Sole(bids, i) ==> paid <= 2.0 * v && 0.0 <= vcg)
  {
    var b := bids[i].bidder;
    hide Welfare, Optimal, Dispensable;
    ExclusionBounds(items, bids, b, x, z);
    DispensableIff(items, bids, b, x, z);
    if Sole(bids, i) { WonBySole(bids, x, i, b); }
  }

  /** A bidder alone in the auction pays twice its bid, where the documented rule charges nothing. */
  lemma SoleBidPaysTwice(items: set<int>, b: Bid)
    ensures Optimal(items, [b], {}, [true]) && Optimal(items, [b], {b.bidder}, [false])
    ensures EnginePayment(Welfare([b], [true]), Welfare([b], [false]), b.value) == 2.0 * b.value
    ensures VcgPayment(Welfare([b], [true]), Welfare([b], [false]), b.value) == 0.0
  {
    forall y | |y| == 1 ensures Welfare([b], y) == if y[0] then b.value else 0.0 {
      assert Welfare([b][1..], y[1..]) == 0.0;
    }
    forall y: Choice, item | |y| == 1 ensures Row([b], y, item) <= 1 {
      assert Row([b][1..], y[1..], item) == 0;
    }
  }

  /** `paid` is what the loop leaves for a bidder whose last chosen bid is `i`. */
  ghost predicate Charged(items: set<int>, bids: seq<Bid>, x: Choice, i: nat, paid: real)
    requires i < |bids| == |x|
  {
    var b, v := bids[i].bidder, bids[i].value;
    && x[i] && (forall j :: i < j < |bids| && x[j] ==> bids[j].bidder != b)
    && v <= paid <= v + Won(bids, x, b)
    && (Sole(bids, i) ==> paid <= 2.0 * v)
    && exists z :: Optimal(items, bids, {b}, z) && paid == Welfare(bids, x) - (Welfare(bids, z) - v)
  }

  /** What the engine reports belongs to one optimal choice: its welfare, a payment for exactly the bidders
      with a chosen bid, and an owner for exactly the packages chosen. */
  ghost predicate Settled(items: set<int>, bids: seq<Bid>, x: Choice, welfare: real,
                          winners: map<set<int>, Bidder>, payments: map<Bidder, real>)
  {
    && Optimal(items, bids, {}, x) && welfare == Welfare(bids, x)
    && (forall i :: 0 <= i < |bids| && x[i] ==> bids[i].bidder in payments)
    && (forall b :: b in payments ==>
                      exists i: nat :: i < |bids| && bids[i].bidder == b && Charged(items, bids, x, i, payments[b]))
    && Grants(bids, x, |bids|, winners)
  }

  /** `compute_vcg_payments`: one payment per winning bidder, kept from the last of its winning bids. */
  method ComputePayments(items: set<int>, bids: seq<Bid>)
    returns (welfare: real, winners: map<set<int>, Bidder>, payments: map<Bidder, real>)
    ensures exists x :: Settled(items, bids, x, welfare, winners, payments)
  {
    var chosen := Solve(items, bids, {});
    ghost var x := chosen;
    welfare := Welfare(bids, chosen);
    winners, payments := map[], map[];
    for k := 0 to |bids|
      invariant Bills(items, bids, x, k, payments) && Grants(bids, x, k, winners)
    {
      if chosen[k] {
        var without := Solve(items, bids, {bids[k].bidder});
        BillOne(items, bids, x, k, payments, without);
        payments := payments[bids[k].bidder := EnginePayment(welfare, Welfare(bids, without), bids[k].value)];
        GrantOne(bids, x, k, winners);
        winners := winners[bids[k].package := bids[k].bidder];
      } else {
        BillNone(items, bids, x, k, payments);
        GrantOne(bids, x, k, winners);
      }
    }
    BillsAreCharged(items, bids, x, payments);
    assert Settled(items, bids, x, welfare, winners, payments);
  }

  /** After `k` bids, bidder `b` owes the payment computed for bid `i`, its last one chosen so far. */
  ghost predicate Billed(items: set<int>, bids: seq<Bid>, x: Choice, k: nat, b: Bidder, i: nat, paid: real)
    requires i < k <= |bids| == |x|
  {
    && x[i] && bids[i].bidder == b
    && (forall j :: i < j < k && x[j] ==> bids[j].bidder != b)
    && Computed(items, bids, x, i, paid)
  }

  /** The figure that the loop computes for bid `i`, for some optimum without its bidder. */
  ghost predicate Computed(items: set<int>, bids: seq<Bid>, x: Choice, i: nat, paid: real)
    requires i < |bids| == |x|
  {
    exists z :: Optimal(items, bids, {bids[i].bidder}, z) &&
                paid == EnginePayment(Welfare(bids, x), Welfare(bids, z), bids[i].value)
  }

  /** After `k` bids, package `g` is recorded for the bidder of bid `i`, the last one chosen for it so far. */
  ghost predicate Granted(bids: seq<Bid>, x: Choice, k: nat, g: set<int>, i: nat, winner: Bidder)
    requires i < k <= |bids| == |x|
  {
    x[i] && bids[i].package == g && bids[i].bidder == winner && forall j :: i < j < k && x[j] ==> bids[j].package != g
  }

  ghost predicate Bills(items: set<int>, bids: seq<Bid>, x: Choice, k: nat, payments: map<Bidder, real>)
    requires k <= |bids| == |x|
  {
    && (forall i :: 0 <= i < k && x[i] ==> bids[i].bidder in payments)
    && (forall b :: b in payments ==> exists i: nat :: i < k && Billed(items, bids, x, k, b, i, payments[b]))
  }

  ghost predicate Grants(bids: seq<Bid>, x: Choice, k: nat, winners: map<set<int>, Bidder>)
    requires k <= |bids| == |x|
  {
    && (forall i :: 0 <= i < k && x[i] ==> bids[i].package in winners)
    && (forall g :: g in winners ==> exists i: nat :: i < k && Granted(bids, x, k, g, i, winners[g]))
  }

  lemma BillNone(items: set<int>, bids: seq<Bid>, x: Choice, k: nat, payments: map<Bidder, real>)
    requires k < |bids| == |x| && Bills(items, bids, x, k, payments) && !x[k]
    ensures Bills(items, bids, x, k + 1, payments)
  {
    hide Computed;
    var k' := k + 1;
    forall b | b in payments ensures exists i: nat :: i < k' && Billed(items, bids, x, k', b, i, payments[b]) {
      var i: nat :| i < k && Billed(items, bids, x, k, b, i, payments[b]);
      assert Billed(items, bids, x, k', b, i, payments[b]);
    }
  }

  lemma BillOne(items: set<int>, bids: seq<Bid>, x: Choice, k: nat, payments: map<Bidder, real>, z: Choice)
    requires k < |bids| == |x| && Bills(items, bids, x, k, payments) && x[k]
    requires |z| == |bids| && Optimal(items, bids, {bids[k].bidder}, z)
    ensures Bills(items, bids, x, k + 1,
                  payments[bids[k].bidder := EnginePayment(Welfare(bids, x), Welfare(bids, z), bids[k].value)])
  {
    hide Computed, Optimal, Welfare, EnginePayment;
    var k', me := k + 1, bids[k].bidder;
    var payments' := payments[me := EnginePayment(Welfare(bids, x), Welfare(bids, z), bids[k].value)];
    ComputedBy(items, bids, x, k, z);
    forall b | b in payments' ensures exists i: nat :: i < k' && Billed(items, bids, x, k', b, i, payments'[b]) {
      if b == me {
        assert Billed(items, bids, x, k', b, k, payments'[b]);
      } else {
        var i: nat :| i < k && Billed(items, bids, x, k, b, i, payments[b]);
        assert Billed(items, bids, x, k', b, i, payments'[b]);
      }
    }
  }

  lemma ComputedBy(items: set<int>, bids: seq<Bid>, x: Choice, i: nat, z: Choice)
    requires i < |bids| == |x| && Optimal(items, bids, {bids[i].bidder}, z)
    ensures Computed(items, bids, x, i, EnginePayment(Welfare(bids, x), Welfare(bids, z), bids[i].value))
  {}

  lemma GrantOne(bids: seq<Bid>, x: Choice, k: nat, winners: map<set<int>, Bidder>)
    requires k < |bids| == |x| && Grants(bids, x, k, winners)
    ensures Grants(bids, x, k + 1, if x[k] then winners[bids[k].package := bids[k].bidder] else winners)
  {
    var k' := k + 1;
    var winners' := if x[k] then winners[bids[k].package := bids[k].bidder] else winners;
    forall g | g in winners' ensures exists i: nat :: i < k' && Granted(bids, x, k', g, i, winners'[g]) {
      if x[k] && g == bids[k].package {
        assert Granted(bids, x, k', g, k, winners'[g]);
      } else {
        var i: nat :| i < k && Granted(bids, x, k, g, i, winners[g]);
        assert Granted(bids, x, k', g, i, winners'[g]);
      }
    }
  }

  lemma BillsAreCharged(items: set<int>, bids: seq<Bid>, x: Choice, payments: map<Bidder, real>)
    requires Optimal(items, bids, {}, x) && Bills(items, bids, x, |bids|, payments)
    ensures forall b :: b in payments ==>
                          exists i: nat :: i < |bids| && bids[i].bidder == b && Charged(items, bids, x, i, payments[b])
  {
    forall b | b in payments
      ensures exists i: nat :: i < |bids| && bids[i].bidder == b && Charged(items, bids, x, i, payments[b])
    {
      var n := |bids|;
      var i: nat :| i < n && Billed(items, bids, x, n, b, i, payments[b]);
      assert Computed(items, bids, x, i, payments[b]);
      var z :| Optimal(items, bids, {b}, z) &&
               payments[b] == EnginePayment(Welfare(bids, x), Welfare(bids, z), bids[i].value);
      PaymentBounds(items, bids, x, z, i);
      assert Charged(items, bids, x, i, payments[b]);
    }
  }

  // ---------------------------------------------------------------- truthfulness of the documented rule

  /** Changing one bid changes the welfare of a choice by that bid's value, and no row it does not enter. */
  lemma {:induction false} ReplaceBid(bids: seq<Bid>, k: nat, bid: Bid, x: Choice)
    requires k < |bids| == |x|
    ensures Welfare(bids[k := bid], x) == Welfare(bids, x) + if x[k] then bid.value - bids[k].value else 0.0
    ensures !x[k] || bid.package <= bids[k].package ==>
              forall item :: Row(bids[k := bid], x, item) <= Row(bids, x, item)
  {
    if k == 0 {
      assert bids[k := bid][1..] == bids[1..];
    } else {
      assert bids[k := bid][1..] == bids[1..][k - 1 := bid];
      ReplaceBid(bids[1..], k - 1, bid, x[1..]);
    }
  }

  /** What bidder `k` gains, valuing any package that holds its own at its true value. */
  ghost function Utility(truth: Bid, bids: seq<Bid>, k: nat, x: Choice, z: Choice): real
    requires k < |bids| == |x| == |z|
  {
    if !x[k] then 0.0
    else
      (if truth.package <= bids[k].package then truth.value else 0.0)
      - VcgPayment(Welfare(bids, x), Welfare(bids, z), bids[k].value)
  }

  lemma OthersNoWorse(items: set<int>, bids: seq<Bid>, k: nat, bid: Bid, z: Choice, z': Choice)
    requires Sole(bids, k) && bid.bidder == bids[k].bidder
    requires Optimal(items, bids, {bid.bidder}, z) && Optimal(items, bids[k := bid], {bid.bidder}, z')
    ensures Welfare(bids, z) <= Welfare(bids[k := bid], z')
  {
    ReplaceBid(bids, k, bid, z);
    assert Allowed(items, bids[k := bid], {bid.bidder}, z);
  }

  /** The optimum without a bidder does not depend on what that bidder reports. */
  lemma OthersUnmoved(items: set<int>, bids: seq<Bid>, k: nat, bid: Bid, z: Choice, z': Choice)
    requires Sole(bids, k) && bid.bidder == bids[k].bidder
    requires Optimal(items, bids, {bid.bidder}, z) && Optimal(items, bids[k := bid], {bid.bidder}, z')
    ensures Welfare(bids, z) == Welfare(bids[k := bid], z')
  {
    hide Welfare, Optimal;
    OthersNoWorse(items, bids, k, bid, z, z');
    assert bids[k := bid][k := bids[k]] == bids;
    OthersNoWorse(items, bids[k := bid], k, bids[k], z', z);
  }

  lemma TruthfulUtility(items: set<int>, bids: seq<Bid>, k: nat, x: Choice, z: Choice)
    requires Sole(bids, k)
    requires Optimal(items, bids, {}, x) && Optimal(items, bids, {bids[k].bidder}, z)
    ensures Utility(bids[k], bids, k, x, z) == Welfare(bids, x) - Welfare(bids, z) >= 0.0
  {
    ExclusionBounds(items, bids, bids[k].bidder, x, z);
    if !x[k] { assert Allowed(items, bids, {bids[k].bidder}, x); }
  }

  /** Under the documented rule no report of value or package gains over the truth, whatever optima are used. */
  lemma TruthIsDominant(items: set<int>, bids: seq<Bid>, k: nat, report: Bid,
                        x: Choice, z: Choice, x': Choice, z': Choice)
    requires Sole(bids, k) && report.bidder == bids[k].bidder
    requires Optimal(items, bids, {}, x) && Optimal(items, bids, {report.bidder}, z)
    requires Optimal(items, bids[k := report], {}, x') && Optimal(items, bids[k := report], {report.bidder}, z')
    ensures Utility(bids[k], bids[k := report], k, x', z') <= Utility(bids[k], bids, k, x, z)
  {
    var reported := bids[k := report];
    assert reported[k := bids[k]] == bids;
    TruthfulUtility(items, bids, k, x, z);
    OthersUnmoved(items, bids, k, report, z, z');
    if x'[k] {
      if bids[k].package <= report.package {
        ReplaceBid(reported, k, bids[k], x');
        assert Allowed(items, bids, {}, x');
      } else {
        PaymentBounds(items, reported, x', z', k);
      }
    }
  }

  /** Under the engine's own formula a truthful winner never gains, and breaks even only if it is not needed. */
  lemma EngineWinnerLoses(items: set<int>, bids: seq<Bid>, x: Choice, z: Choice, i: nat)
    requires i < |bids| && Optimal(items, bids, {}, x) && x[i] && Optimal(items, bids, {bids[i].bidder}, z)
    ensures var gain := bids[i].value - EnginePayment(Welfare(bids, x), Welfare(bids, z), bids[i].value);
            gain == Welfare(bids, z) - Welfare(bids, x) <= 0.0
  {
    PaymentBounds(items, bids, x, z, i);
  }
}
