/**
The keyed stream validator: each agent's events are checked and compared with the last value emitted
for that agent.  The clock read for an event is part of the event.
*/
module StreamValidator {
  import opened Optional

  type Agent = nat

  const DAY: int := 86400000
  const JUMP: real := 1000000.0

  datatype Event = Event(agent: Agent, kind: string, value: real, timestamp: int, now: int)

  datatype Output = Output(agent: Agent, kind: string, value: real)

  predicate IsValid(e: Event) {
    e.value >= 0.0 && e.timestamp > e.now - DAY && e.kind != []
  }

  function Abs(x: real): real { if x < 0.0 then -x else x }

  /** The event passes: it is valid and not too far from the agent's last value, if there is one. */
  predicate Passes(last: map<Agent, real>, e: Event) {
    IsValid(e) && (e.agent in last ==> Abs(e.value - last[e.agent]) < JUMP)
  }

  class StatefulValidator {
    var lastValid: map<Agent, real>

    constructor ()
      ensures lastValid == map[]
    {
      lastValid := map[];
    }

    method ProcessElement(e: Event) returns (out: seq<Output>)
      modifies this
      ensures out == Emitted(old(lastValid), e) && lastValid == Advanced(old(lastValid), e)
      ensures out == [Output(e.agent, e.kind, e.value)] <==>
              && e.value >= 0.0 && e.now - e.timestamp < 86_400_000 && |e.kind| > 0
              && (e.agent in old(lastValid) ==> -1_000_000.0 < e.value - old(lastValid)[e.agent] < 1_000_000.0)
    {
      out := [];
      if IsValid(e) {
        var previous := if e.agent in lastValid then Some(lastValid[e.agent]) else None;
        if previous.None? || Abs(e.value - previous.value) < JUMP {
          lastValid := lastValid[e.agent := e.value];
          out := [Output(e.agent, e.kind, e.value)];
        }
      }
    }
  }

  function Emitted(last: map<Agent, real>, e: Event): seq<Output> {
    if Passes(last, e) then [Output(e.agent, e.kind, e.value)] else []
  }

  function Advanced(last: map<Agent, real>, e: Event): map<Agent, real> {
    if Passes(last, e) then last[e.agent := e.value] else last
  }

  // ---------------------------------------------------------------- whole streams

  function StateAfter(es: seq<Event>): map<Agent, real> {
    if es == [] then map[] else Advanced(StateAfter(es[..|es| - 1]), es[|es| - 1])
  }

  function Outputs(es: seq<Event>): seq<Output> {
    if es == [] then []
    else Outputs(es[..|es| - 1]) + Emitted(StateAfter(es[..|es| - 1]), es[|es| - 1])
  }

  /** The validator object, fed a stream, emits what `Outputs` says. */
  method Process(es: seq<Event>) returns (out: seq<Output>)
    ensures out == Outputs(es) && exists at :: Selects(es, at) && Shows(es, at, out)
  {
    ghost var at := EmitsExactly(es);
    var validator := new StatefulValidator();
    out := [];
    for i := 0 to |es|
      invariant out == Outputs(es[..i]) && validator.lastValid == StateAfter(es[..i])
      invariant fresh(validator)
    {
      assert es[..i + 1][..i] == es[..i];
      var more := validator.ProcessElement(es[i]);
      out := out + more;
    }
    assert es[..|es|] == es;
  }

  function EventsOf(es: seq<Event>, a: Agent): seq<Event> {
    if es == [] then []
    else EventsOf(es[..|es| - 1], a) + if es[|es| - 1].agent == a then [es[|es| - 1]] else []
  }

  function OutputsOf(os: seq<Output>, a: Agent): seq<Output> {
    if os == [] then []
    else OutputsOf(os[..|os| - 1], a) + if os[|os| - 1].agent == a then [os[|os| - 1]] else []
  }

  ghost predicate SameFor(a: Agent, x: map<Agent, real>, y: map<Agent, real>) {
    (a in x <==> a in y) && (a in x ==> x[a] == y[a])
  }

  lemma OutputsOfStep(os: seq<Output>, a: Agent, last: map<Agent, real>, e: Event)
    ensures OutputsOf(os + Emitted(last, e), a) == OutputsOf(os, a) + if e.agent == a then Emitted(last, e) else []
  {
    var emitted := Emitted(last, e);
    if emitted == [] {
      assert os + emitted == os && OutputsOf(os, a) + [] == OutputsOf(os, a);
    } else {
      assert (os + emitted)[..|os|] == os;
    }
  }

  lemma NoOutputs(a: Agent)
    ensures OutputsOf([], a) == []
  {}

  lemma OneMore(es: seq<Event>, e: Event)
    ensures Outputs(es + [e]) == Outputs(es) + Emitted(StateAfter(es), e)
    ensures StateAfter(es + [e]) == Advanced(StateAfter(es), e)
  {
    assert (es + [e])[..|es|] == es;
  }

  /** Only the agent's own last value decides about its events, and others leave it alone. */
  lemma OwnStateDecides(a: Agent, x: map<Agent, real>, y: map<Agent, real>, e: Event)
    requires SameFor(a, x, y)
    ensures e.agent == a ==> Emitted(x, e) == Emitted(y, e) && SameFor(a, Advanced(x, e), Advanced(y, e))
    ensures e.agent != a ==> SameFor(a, Advanced(x, e), y)
  {}

  /** However agents' events are interleaved, one agent's output is that of its own events alone. */
  lemma {:induction false} AgentsIndependent(es: seq<Event>, a: Agent)
    ensures OutputsOf(Outputs(es), a) == Outputs(EventsOf(es, a))
    ensures SameFor(a, StateAfter(es), StateAfter(EventsOf(es, a)))
  {
    hide Emitted, Advanced, OutputsOf;
    if es == [] {
      NoOutputs(a);
    } else {
      var init, e := es[..|es| - 1], es[|es| - 1];
      AgentsIndependent(init, a);
      OutputsOfStep(Outputs(init), a, StateAfter(init), e);
      OneMore(EventsOf(init, a), e);
      OwnStateDecides(a, StateAfter(init), StateAfter(EventsOf(init, a)), e);
      if e.agent != a {
        assert EventsOf(init, a) + [] == EventsOf(init, a);
        assert OutputsOf(Outputs(init), a) + [] == OutputsOf(Outputs(init), a);
      }
    }
  }

  // ---------------------------------------------------------------- which events are emitted

  /** Position `i` of `at` is the last before event `k` that belongs to the same agent. */
  ghost predicate Previous(es: seq<Event>, at: seq<nat>, k: nat, i: nat) {
    && k < |es| && i < |at| && at[i] < k && es[at[i]].agent == es[k].agent
    && forall j :: i < j < |at| && at[j] < k ==> es[at[j]].agent != es[k].agent
  }

  /** Event `k` has a value of 0 or more, is less than a day old, names its kind, and lies within a million of the
      agent's previous output, if there is one. */
  ghost predicate Deserves(es: seq<Event>, at: seq<nat>, k: nat) {
    && k < |es| && es[k].value >= 0.0 && es[k].now - es[k].timestamp < 86_400_000 && |es[k].kind| > 0
    && forall i: nat :: Previous(es, at, k, i) ==> -1_000_000.0 < es[k].value - es[at[i]].value < 1_000_000.0
  }

  /** `at` lists, in stream order, the events that deserve to be emitted. */
  ghost predicate Selects(es: seq<Event>, at: seq<nat>) {
    && (forall i :: 0 <= i < |at| ==> at[i] < |es|)
    && (forall i, j :: 0 <= i < j < |at| ==> at[i] < at[j])
    && (forall k: nat :: k in at <==> Deserves(es, at, k))
  }

  /** The outputs are those events' agents, kinds and values. */
  ghost predicate Shows(es: seq<Event>, at: seq<nat>, os: seq<Output>) {
    && |os| == |at|
    && forall i :: 0 <= i < |at| ==>
                     && at[i] < |es|
                     && os[i] == Output(es[at[i]].agent, es[at[i]].kind, es[at[i]].value)
  }

  /** The agent's state is the value of its last selected event, and absent without one. */
  ghost predicate Remembers(es: seq<Event>, at: seq<nat>, last: map<Agent, real>, a: Agent)
    requires forall i :: 0 <= i < |at| ==> at[i] < |es|
  {
    && (a !in last ==> forall i :: 0 <= i < |at| ==> es[at[i]].agent != a)
    && (a in last ==> exists i :: && 0 <= i < |at| && es[at[i]].agent == a && es[at[i]].value == last[a]
                                  && forall j :: i < j < |at| ==> es[at[j]].agent != a)
  }

  /** One more event is selected exactly if it passes. */
  lemma LastDeserves(es: seq<Event>, at: seq<nat>, last: map<Agent, real>)
    requires es != [] && forall i :: 0 <= i < |at| ==> at[i] < |es| - 1
    requires Remembers(es[..|es| - 1], at, last, es[|es| - 1].agent)
    ensures Deserves(es, at, |es| - 1) <==> Passes(last, es[|es| - 1])
  {
    var k, a := |es| - 1, es[|es| - 1].agent;
    if a in last {
      var i: nat :| && i < |at| && es[..k][at[i]].agent == a && es[..k][at[i]].value == last[a]
                    && forall j :: i < j < |at| ==> es[..k][at[j]].agent != a;
      assert Previous(es, at, k, i);
      forall j: nat | Previous(es, at, k, j) ensures j == i {}
    }
  }

  /** What an event deserves depends on what comes before it only. */
  lemma DeservesEarly(es: seq<Event>, n: nat, at: seq<nat>, at': seq<nat>, k: nat)
    requires k < n <= |es| && (forall i :: 0 <= i < |at| ==> at[i] < |es|)
    requires at' == at || exists m: nat :: k <= m && at' == at + [m]
    ensures Deserves(es, at', k) <==> Deserves(es[..n], at, k)
  {
    forall i: nat ensures Previous(es, at', k, i) <==> Previous(es[..n], at, k, i) {}
    forall i: nat | Previous(es[..n], at, k, i) ensures at'[i] == at[i] && es[..n][at[i]] == es[at[i]] {}
  }

  lemma SelectsOneMore(es: seq<Event>, before: seq<nat>, at: seq<nat>)
    requires es != [] && Selects(es[..|es| - 1], before)
    requires at == before + if Deserves(es, before, |es| - 1) then [|es| - 1] else []
    ensures Selects(es, at)
  {
    var n := |es| - 1;
    forall k: nat ensures k in at <==> Deserves(es, at, k) {
      if k < n {
        DeservesEarly(es, n, before, at, k);
      } else if k == n {
        DeservesEarly(es, |es|, before, at, k);
        assert es[..|es|] == es;
      }
    }
  }

  lemma RemembersOneMore(es: seq<Event>, before: seq<nat>, at: seq<nat>, last: map<Agent, real>, a: Agent)
    requires es != [] && (forall i :: 0 <= i < |before| ==> before[i] < |es| - 1)
    requires Remembers(es[..|es| - 1], before, last, a)
    requires at == before + if Passes(last, es[|es| - 1]) then [|es| - 1] else []
    ensures Remembers(es, at, Advanced(last, es[|es| - 1]), a)
  {
    var k, last' := |es| - 1, Advanced(last, es[|es| - 1]);
    assert forall i :: 0 <= i < |before| ==> at[i] == before[i] && es[..k][before[i]] == es[before[i]];
    if Passes(last, es[k]) && es[k].agent == a {
      assert at[|before|] == k;
    } else if a in last {
      var i :| && 0 <= i < |before| && es[..k][before[i]].agent == a && es[..k][before[i]].value == last[a]
               && forall j :: i < j < |before| ==> es[..k][before[j]].agent != a;
      assert at[i] == before[i];
    }
  }

  lemma ShowsOneMore(es: seq<Event>, before: seq<nat>, at: seq<nat>, os: seq<Output>, last: map<Agent, real>)
    requires es != [] && Shows(es[..|es| - 1], before, os)
    requires at == before + if Passes(last, es[|es| - 1]) then [|es| - 1] else []
    ensures Shows(es, at, os + Emitted(last, es[|es| - 1]))
  {}

  /** From the events' fields alone: the stream emits, in order, exactly the events that deserve it. */
  lemma {:induction false} EmitsExactly(es: seq<Event>) returns (at: seq<nat>)
    ensures Selects(es, at) && Shows(es, at, Outputs(es))
    ensures forall a :: Remembers(es, at, StateAfter(es), a)
  {
    at := [];
    if es == [] {
      forall k: nat ensures !Deserves(es, at, k) {}
    } else {
      hide Deserves, Remembers, Passes, Emitted, Advanced, Shows;
      var init, e := es[..|es| - 1], es[|es| - 1];
      var last := StateAfter(init);
      var before := EmitsExactly(init);
      at := before + if Passes(last, e) then [|es| - 1] else [];
      LastDeserves(es, before, last);
      SelectsOneMore(es, before, at);
      ShowsOneMore(es, before, at, Outputs(init), last);
      forall a ensures Remembers(es, at, StateAfter(es), a) { RemembersOneMore(es, before, at, last, a); }
    }
  }

  // ---------------------------------------------------------------- drift

  ghost predicate AllOf(es: seq<Event>, a: Agent) {
    forall i :: 0 <= i < |es| ==> es[i].agent == a
  }

  lemma {:induction false} EventsOfAll(es: seq<Event>, a: Agent)
    ensures AllOf(EventsOf(es, a), a)
  {
    if es != [] { EventsOfAll(es[..|es| - 1], a); }
  }

  /** Alone, an agent's state is its last output and neighbouring outputs are close. */
  lemma {:induction false} NeighboursClose(es: seq<Event>, a: Agent)
    requires AllOf(es, a)
    ensures var os := Outputs(es);
            && (os == [] <==> a !in StateAfter(es))
            && (os != [] ==> StateAfter(es)[a] == os[|os| - 1].value)
            && (forall i :: 0 <= i < |os| - 1 ==> Abs(os[i + 1].value - os[i].value) < JUMP)
            && (forall i :: 0 <= i < |os| ==> os[i].agent == a && os[i].value >= 0.0)
  {
    if es != [] { NeighboursClose(es[..|es| - 1], a); }
  }

  lemma NeighbourClose(es: seq<Event>, a: Agent, k: nat)
    requires AllOf(es, a) && 0 < k < |Outputs(es)|
    ensures Abs(Outputs(es)[k].value - Outputs(es)[k - 1].value) < JUMP
  {
    hide Outputs, StateAfter, AllOf, Abs;
    NeighboursClose(es, a);
    var i := k - 1;
    assert Abs(Outputs(es)[i + 1].value - Outputs(es)[i].value) < JUMP;
  }

  lemma {:induction false} DriftAlone(es: seq<Event>, a: Agent, k: nat)
    requires AllOf(es, a) && k < |Outputs(es)|
    ensures Abs(Outputs(es)[k].value - Outputs(es)[0].value) <= k as real * JUMP
  {
    hide Outputs, AllOf;
    if k > 0 {
      NeighbourClose(es, a, k);
      DriftAlone(es, a, k - 1);
      assert k as real * JUMP == (k - 1) as real * JUMP + JUMP;
    }
  }

  /** In any interleaving, an agent's `k`-th later value is within `k` jumps of its first, and
      neighbouring values are less than one apart. */
  lemma DriftBounded(es: seq<Event>, a: Agent, k: nat)
    requires k < |OutputsOf(Outputs(es), a)|
    ensures var os := OutputsOf(Outputs(es), a);
            && Abs(os[k].value - os[0].value) <= k as real * JUMP
            && (k > 0 ==> Abs(os[k].value - os[k - 1].value) < JUMP)
  {
    hide Outputs, OutputsOf, EventsOf, StateAfter, SameFor, AllOf, Abs;
    AgentsIndependent(es, a);
    var own := EventsOf(es, a);
    EventsOfAll(es, a);
    DriftAlone(own, a, k);
    if k > 0 { NeighbourClose(own, a, k); }
  }
}
