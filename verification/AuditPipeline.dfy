/**
The audit pipeline as a state machine: any number of loggers, a bounded queue, a pool of workers and
one shutdown, interleaved in any way.  `accepted` and `taken` record, in order, the events that
`LogEvent` has accepted and that workers have received.
*/
module AuditPipeline {

  type Event = nat

  datatype Worker = Idle | Busy(event: Event) | Exited

  /** Before `Shutdown`, while it waits for the workers, and after it has returned. */
  datatype Phase = Open | Draining | Stopped

  datatype State = State(
    queue: seq<Event>,
    workers: seq<Worker>,
    phase: Phase,
    accepted: seq<Event>,
    taken: seq<Event>,
    persisted: multiset<Event>,
    failed: multiset<Event>)

  datatype Action =
    | Log(event: Event)
    | HandOver(event: Event, worker: nat)
    | Take(worker: nat)
    | Persist(worker: nat, ok: bool)
    | Close
    | Exit(worker: nat)
    | Return

  function Init(workers: nat): State {
    State([], seq(workers, _ => Idle), Open, [], [], multiset{}, multiset{})
  }

  /** When an action can happen.  The queue is never closed, so events are accepted in any phase; a send
      passes straight to a waiting worker when nothing is queued; a worker that finds both the queue and
      the shutdown channel ready may pick either. */
  predicate Enabled(bound: nat, s: State, a: Action) {
    match a
    case Log(_) => |s.queue| < bound
    case HandOver(_, w) => s.queue == [] && w < |s.workers| && s.workers[w].Idle?
    case Take(w) => s.queue != [] && w < |s.workers| && s.workers[w].Idle?
    case Persist(w, _) => w < |s.workers| && s.workers[w].Busy?
    case Close => s.phase.Open?
    case Exit(w) => !s.phase.Open? && w < |s.workers| && s.workers[w].Idle?
    case Return => s.phase.Draining? && forall w :: 0 <= w < |s.workers| ==> s.workers[w].Exited?
  }

  function Next(bound: nat, s: State, a: Action): State
    requires Enabled(bound, s, a)
  {
    match a
    case Log(e) => s.(queue := s.queue + [e], accepted := s.accepted + [e])
    case HandOver(e, w) =>
      s.(workers := s.workers[w := Busy(e)], accepted := s.accepted + [e], taken := s.taken + [e])
    case Take(w) =>
      s.(workers := s.workers[w := Busy(s.queue[0])], queue := s.queue[1..], taken := s.taken + [s.queue[0]])
    case Persist(w, ok) =>
      var e := s.workers[w].event;
      var s' := s.(workers := s.workers[w := Idle]);
      if ok then s'.(persisted := s.persisted + multiset{e}) else s'.(failed := s.failed + multiset{e})
    case Close => s.(phase := Draining)
    case Exit(w) => s.(workers := s.workers[w := Exited])
    case Return => s.(phase := Stopped)
  }

  /** The actions happen one after the other, from `s` to `s'`. */
  ghost predicate Runs(bound: nat, s: State, actions: seq<Action>, s': State)
    decreases |actions|
  {
    if actions == [] then s' == s
    else Enabled(bound, s, actions[0]) && Runs(bound, Next(bound, s, actions[0]), actions[1..], s')
  }

  // ---------------------------------------------------------------- conservation

  /** How many workers are busy with the event. */
  function InFlight(workers: seq<Worker>, e: Event): nat {
    if workers == [] then 0
    else InFlight(workers[..|workers| - 1], e) + Share(workers[|workers| - 1], e)
  }

  function Share(w: Worker, e: Event): nat {
    if w == Busy(e) then 1 else 0
  }

  lemma {:induction false} InFlightUpdate(workers: seq<Worker>, i: nat, w: Worker, e: Event)
    requires i < |workers|
    ensures InFlight(workers[i := w], e) == InFlight(workers, e) - Share(workers[i], e) + Share(w, e)
  {
    var init := workers[..|workers| - 1];
    if i == |workers| - 1 {
      assert workers[i := w][..|workers| - 1] == init;
    } else {
      assert workers[i := w][..|workers| - 1] == init[i := w];
      InFlightUpdate(init, i, w, e);
    }
  }

  lemma {:induction false} NobodyBusy(workers: seq<Worker>, e: Event)
    requires forall w :: 0 <= w < |workers| ==> !workers[w].Busy?
    ensures InFlight(workers, e) == 0
  {
    if workers != [] { NobodyBusy(workers[..|workers| - 1], e); }
  }

  /** Each event was taken as often as it is persisted, failed or in flight. */
  ghost predicate Accounted(s: State) {
    forall e :: multiset(s.taken)[e] == s.persisted[e] + s.failed[e] + InFlight(s.workers, e)
  }

  ghost predicate Inv(bound: nat, s: State) {
    && |s.queue| <= bound
    && s.accepted == s.taken + s.queue
    && Accounted(s)
    && (s.phase.Stopped? ==> forall w :: 0 <= w < |s.workers| ==> s.workers[w].Exited?)
  }

  lemma InitInv(bound: nat, workers: nat)
    ensures Inv(bound, Init(workers))
  {
    forall e ensures InFlight(Init(workers).workers, e) == 0 {
      NobodyBusy(Init(workers).workers, e);
    }
  }

  lemma StepAccount(bound: nat, s: State, a: Action, e: Event)
    requires Enabled(bound, s, a)
    requires multiset(s.taken)[e] == s.persisted[e] + s.failed[e] + InFlight(s.workers, e)
    ensures var s' := Next(bound, s, a);
            multiset(s'.taken)[e] == s'.persisted[e] + s'.failed[e] + InFlight(s'.workers, e)
  {
    hide InFlight;
    var s' := Next(bound, s, a);
    if a.HandOver? || a.Take? || a.Persist? || a.Exit? {
      InFlightUpdate(s.workers, a.worker, s'.workers[a.worker], e);
    }
  }

  lemma StepAccounted(bound: nat, s: State, a: Action)
    requires Accounted(s) && Enabled(bound, s, a)
    ensures Accounted(Next(bound, s, a))
  {
    hide InFlight, Next;
    var s' := Next(bound, s, a);
    forall e ensures multiset(s'.taken)[e] == s'.persisted[e] + s'.failed[e] + InFlight(s'.workers, e) {
      StepAccount(bound, s, a, e);
    }
  }

  lemma StepInv(bound: nat, s: State, a: Action)
    requires Inv(bound, s) && Enabled(bound, s, a)
    ensures Inv(bound, Next(bound, s, a))
  {
    hide Accounted;
    StepAccounted(bound, s, a);
    StepQueue(bound, s, a);
  }

  lemma StepQueue(bound: nat, s: State, a: Action)
    requires |s.queue| <= bound && s.accepted == s.taken + s.queue && Enabled(bound, s, a)
    ensures var s' := Next(bound, s, a); |s'.queue| <= bound && s'.accepted == s'.taken + s'.queue
  {
    match a {
      case Log(e) => Reassociate(s.taken, s.queue, [e]);
      case HandOver(e, w) => assert s.taken + [] == s.taken;
      case Take(w) =>
        assert s.queue == [s.queue[0]] + s.queue[1..];
        Reassociate(s.taken, [s.queue[0]], s.queue[1..]);
      case _ =>
    }
  }

  lemma Reassociate(a: seq<Event>, b: seq<Event>, c: seq<Event>)
    ensures a + (b + c) == a + b + c
  {}

  lemma {:induction false} RunInv(bound: nat, s: State, actions: seq<Action>, s': State)
    requires Inv(bound, s) && Runs(bound, s, actions, s')
    ensures Inv(bound, s')
    decreases |actions|
  {
    hide Inv;
    if actions != [] {
      StepInv(bound, s, actions[0]);
      RunInv(bound, Next(bound, s, actions[0]), actions[1..], s');
    }
  }

  /** Until the shutdown begins all workers are there. */
  lemma {:induction false} OpenIsManned(bound: nat, s: State, actions: seq<Action>, s': State)
    requires Runs(bound, s, actions, s') && (s.phase.Open? ==> Manned(s))
    ensures |s'.workers| == |s.workers| && (s'.phase.Open? ==> Manned(s'))
    decreases |actions|
  {
    if actions != [] { OpenIsManned(bound, Next(bound, s, actions[0]), actions[1..], s'); }
  }

  ghost predicate Manned(s: State) {
    forall w :: 0 <= w < |s.workers| ==> !s.workers[w].Exited?
  }

  /** In every run: accepted events are, in order, those taken and then those queued; as a multiset they
      are those persisted, failed, in flight and queued; and the queue keeps to its bound. */
  lemma EventsConserved(bound: nat, workers: nat, actions: seq<Action>, s: State)
    requires Runs(bound, Init(workers), actions, s)
    ensures |s.workers| == workers && |s.queue| <= bound && s.accepted == s.taken + s.queue
    ensures forall e :: multiset(s.accepted)[e] ==
                        s.persisted[e] + s.failed[e] + InFlight(s.workers, e) + multiset(s.queue)[e]
    ensures s.phase.Stopped? ==> forall e :: InFlight(s.workers, e) == 0
  {
    InitInv(bound, workers);
    RunInv(bound, Init(workers), actions, s);
    OpenIsManned(bound, Init(workers), actions, s);
    assert Accounted(s);
    if s.phase.Stopped? {
      forall e ensures InFlight(s.workers, e) == 0 { NobodyBusy(s.workers, e); }
    }
  }

  /** An event accepted once is persisted at most once, and not both persisted and failed. */
  lemma NoneTwice(bound: nat, workers: nat, actions: seq<Action>, s: State, e: Event)
    requires Runs(bound, Init(workers), actions, s) && multiset(s.accepted)[e] <= 1
    ensures s.persisted[e] + s.failed[e] <= 1
  {
    EventsConserved(bound, workers, actions, s);
    assert InFlight(s.workers, e) >= 0;
  }

  lemma {:induction false} RunsJoin(bound: nat, s: State, a: seq<Action>, m: State, b: seq<Action>, s': State)
    requires Runs(bound, s, a, m) && Runs(bound, m, b, s')
    ensures Runs(bound, s, a + b, s')
    decreases |a|
  {
    if a == [] {
      assert a + b == b;
    } else {
      assert (a + b)[1..] == a[1..] + b;
      RunsJoin(bound, Next(bound, s, a[0]), a[1..], m, b, s');
    }
  }

  /** No action puts an event into the queue. */
  predicate NoneQueued(actions: seq<Action>) {
    forall i :: 0 <= i < |actions| ==> !actions[i].Log?
  }

  // ---------------------------------------------------------------- acceptance

  /** In every reachable state an event is queued exactly if fewer than `bound` accepted events are untaken, and
      handed over exactly if none is and a worker waits; then and only then `LogEvent` accepts it. */
  lemma AcceptsIff(bound: nat, workers: nat, actions: seq<Action>, s: State, e: Event)
    requires Runs(bound, Init(workers), actions, s)
    ensures |s.taken| <= |s.accepted|
    ensures Enabled(bound, s, Log(e)) <==> |s.accepted| - |s.taken| < bound
    ensures forall w: nat :: Enabled(bound, s, HandOver(e, w)) <==>
                               |s.accepted| == |s.taken| && w < |s.workers| && s.workers[w].Idle?
  {
    EventsConserved(bound, workers, actions, s);
  }

  /** Any events that the queue has room for can be queued, one after the other, whatever the workers do. */
  lemma {:induction false} QueueFills(bound: nat, s: State, events: seq<Event>) returns (actions: seq<Action>, s': State)
    requires |s.queue| + |events| <= bound
    ensures Runs(bound, s, actions, s') && |actions| == |events|
    ensures s' == s.(queue := s.queue + events, accepted := s.accepted + events)
    decreases |events|
  {
    if events == [] {
      actions, s' := [], s;
      assert s.queue + events == s.queue && s.accepted + events == s.accepted;
    } else {
      var s1 := Next(bound, s, Log(events[0]));
      var rest;
      rest, s' := QueueFills(bound, s1, events[1..]);
      actions := [Log(events[0])] + rest;
      assert actions[1..] == rest && events == [events[0]] + events[1..];
      Reassociate(s.queue, [events[0]], events[1..]);
      Reassociate(s.accepted, [events[0]], events[1..]);
    }
  }

  /** Any list of events that fits can be exactly what is queued and accepted, for any number of workers. */
  lemma QueueHolds(bound: nat, workers: nat, events: seq<Event>) returns (actions: seq<Action>, s: State)
    requires |events| <= bound
    ensures Runs(bound, Init(workers), actions, s) && s.queue == s.accepted == events
  {
    actions, s := QueueFills(bound, Init(workers), events);
    assert [] + events == events;
  }

  // ---------------------------------------------------------------- outcomes

  /** How many attempts of a run to persist an event ended as `ok` says. */
  function Attempts(actions: seq<Action>, ok: bool): nat {
    if actions == [] then 0
    else (if actions[0].Persist? && actions[0].ok == ok then 1 else 0) + Attempts(actions[1..], ok)
  }

  /** Every successful attempt persists one event and every failed one loses one, and nothing else does. */
  lemma {:induction false} OutcomesCounted(bound: nat, s: State, actions: seq<Action>, s': State)
    requires Runs(bound, s, actions, s')
    ensures |s'.persisted| == |s.persisted| + Attempts(actions, true)
    ensures |s'.failed| == |s.failed| + Attempts(actions, false)
    decreases |actions|
  {
    if actions != [] { OutcomesCounted(bound, Next(bound, s, actions[0]), actions[1..], s'); }
  }

  // ---------------------------------------------------------------- draining

  /** An idle worker can take and persist all that is queued. */
  lemma {:induction false} DrainQueue(bound: nat, s: State, w: nat) returns (actions: seq<Action>, s': State)
    requires w < |s.workers| && s.workers[w].Idle?
    ensures Runs(bound, s, actions, s') && NoneQueued(actions) && s'.queue == []
    ensures s' == s.(queue := [], taken := s'.taken, persisted := s'.persisted)
    decreases |s.queue|
  {
    if s.queue == [] {
      actions, s' := [], s;
    } else {
      var s1 := Next(bound, s, Take(w));
      var s2 := Next(bound, s1, Persist(w, true));
      assert s2.workers == s.workers;
      var rest;
      rest, s' := DrainQueue(bound, s2, w);
      assert ([Persist(w, true)] + rest)[1..] == rest;
      assert Runs(bound, s1, [Persist(w, true)] + rest, s');
      actions := [Take(w)] + ([Persist(w, true)] + rest);
      assert actions[1..] == [Persist(w, true)] + rest;
    }
  }

  /** Every worker from `k` on can persist the event it has. */
  lemma {:induction false} AllPersist(bound: nat, s: State, k: nat) returns (actions: seq<Action>, s': State)
    requires k <= |s.workers| && forall w :: 0 <= w < k ==> !s.workers[w].Busy?
    ensures Runs(bound, s, actions, s') && NoneQueued(actions)
    ensures s' == s.(workers := s'.workers, persisted := s'.persisted) && |s'.workers| == |s.workers|
    ensures forall w :: 0 <= w < |s.workers| ==> s'.workers[w] == if s.workers[w].Busy? then Idle else s.workers[w]
    decreases |s.workers| - k
  {
    if k == |s.workers| {
      actions, s' := [], s;
    } else if !s.workers[k].Busy? {
      actions, s' := AllPersist(bound, s, k + 1);
    } else {
      var rest;
      rest, s' := AllPersist(bound, Next(bound, s, Persist(k, true)), k + 1);
      actions := [Persist(k, true)] + rest;
      assert actions[1..] == rest;
    }
  }

  /** While a worker is left, every event accepted so far can still be dealt with, none of them failing. */
  lemma CanDrain(bound: nat, workers: nat, before: seq<Action>, s: State, w: nat)
    returns (actions: seq<Action>, s': State)
    requires Runs(bound, Init(workers), before, s) && w < |s.workers| && !s.workers[w].Exited?
    ensures Runs(bound, s, actions, s') && NoneQueued(actions) && s'.accepted == s.accepted && s'.failed == s.failed
    ensures multiset(s'.accepted) == s'.persisted + s'.failed
  {
    var first, s1 := AllPersist(bound, s, 0);
    var second;
    second, s' := DrainQueue(bound, s1, w);
    RunsJoin(bound, s, first, s1, second, s');
    actions := first + second;
    RunsJoin(bound, Init(workers), before, s, actions, s');
    EventsConserved(bound, workers, before + actions, s');
    forall e ensures multiset(s'.accepted)[e] == (s'.persisted + s'.failed)[e] { NobodyBusy(s'.workers, e); }
  }

  /** In particular whenever the shutdown has not begun, with any worker at all. */
  lemma OpenCanDrain(bound: nat, workers: nat, before: seq<Action>, s: State)
    returns (actions: seq<Action>, s': State)
    requires Runs(bound, Init(workers), before, s) && s.phase.Open? && workers > 0
    ensures Runs(bound, s, actions, s') && NoneQueued(actions) && s'.accepted == s.accepted && s'.failed == s.failed
    ensures multiset(s'.accepted) == s'.persisted + s'.failed
  {
    OpenIsManned(bound, Init(workers), before, s);
    actions, s' := CanDrain(bound, workers, before, s, 0);
  }

  // ---------------------------------------------------------------- shutdown

  /** After `Shutdown` has returned nothing more is persisted or taken; later events only pile up. */
  lemma {:induction false} StoppedForGood(bound: nat, s: State, actions: seq<Action>, s': State)
    requires Inv(bound, s) && s.phase.Stopped? && Runs(bound, s, actions, s')
    ensures s'.phase.Stopped? && s'.persisted == s.persisted && s'.failed == s.failed && s'.taken == s.taken
    ensures s.queue <= s'.queue
    decreases |actions|
  {
    hide Accounted;
    if actions != [] {
      StepInv(bound, s, actions[0]);
      StoppedForGood(bound, Next(bound, s, actions[0]), actions[1..], s');
    }
  }

  /** Once stopped, every accepted event has been dealt with exactly if none is left in the queue. */
  lemma DrainedIff(bound: nat, workers: nat, actions: seq<Action>, s: State)
    requires Runs(bound, Init(workers), actions, s) && s.phase.Stopped?
    ensures multiset(s.accepted) == s.persisted + s.failed <==> s.queue == []
  {
    EventsConserved(bound, workers, actions, s);
    assert forall e :: multiset(s.accepted)[e] == s.persisted[e] + s.failed[e] + multiset(s.queue)[e] by {
      forall e ensures multiset(s.accepted)[e] == s.persisted[e] + s.failed[e] + multiset(s.queue)[e] {
        assert InFlight(s.workers, e) == 0;
      }
    }
    if s.queue != [] {
      assert s.queue[0] in multiset(s.queue);
    }
  }

  /** Every worker from `k` on persists the event it has, if any, and leaves. */
  lemma {:induction false} AllExit(bound: nat, s: State, k: nat) returns (actions: seq<Action>, s': State)
    requires s.phase.Draining? && k <= |s.workers|
    requires forall w :: 0 <= w < k ==> s.workers[w].Exited?
    ensures Runs(bound, s, actions, s') && NoneQueued(actions)
    ensures s' == s.(workers := s'.workers, persisted := s'.persisted) && |s'.workers| == |s.workers|
    ensures forall w :: 0 <= w < |s'.workers| ==> s'.workers[w].Exited?
    ensures (forall w :: 0 <= w < |s.workers| ==> !s.workers[w].Busy?) ==> s'.persisted == s.persisted
    decreases |s.workers| - k
  {
    if k == |s.workers| {
      actions, s' := [], s;
    } else if s.workers[k].Exited? {
      actions, s' := AllExit(bound, s, k + 1);
    } else {
      var s1, first := s, [];
      if s.workers[k].Busy? {
        first := [Persist(k, true)];
        s1 := Next(bound, s, first[0]);
        assert first[1..] == [];
      }
      assert Runs(bound, s, first, s1);
      var rest;
      rest, s' := AllExit(bound, Next(bound, s1, Exit(k)), k + 1);
      assert ([Exit(k)] + rest)[1..] == rest;
      assert Runs(bound, s1, [Exit(k)] + rest, s');
      RunsJoin(bound, s, first, s1, [Exit(k)] + rest, s');
      actions := first + ([Exit(k)] + rest);
    }
  }

  /** From wherever it waits, `Shutdown` can return without another event being queued or taken. */
  lemma ShutdownCompletes(bound: nat, s: State) returns (actions: seq<Action>, s': State)
    requires s.phase.Draining?
    ensures Runs(bound, s, actions, s') && NoneQueued(actions) && s'.phase.Stopped?
    ensures s'.queue == s.queue && s'.accepted == s.accepted && s'.taken == s.taken && s'.failed == s.failed
    ensures (forall w :: 0 <= w < |s.workers| ==> !s.workers[w].Busy?) ==> s'.persisted == s.persisted
  {
    var exits, s1 := AllExit(bound, s, 0);
    s' := Next(bound, s1, Return);
    assert Runs(bound, s1, [Return], s') by { assert [Return][1..] == []; }
    RunsJoin(bound, s, exits, s1, [Return], s');
    actions := exits + [Return];
  }

  lemma {:induction false} EmptyStaysEmpty(bound: nat, s: State, actions: seq<Action>, s': State)
    requires s.queue == [] && Runs(bound, s, actions, s') && NoneQueued(actions)
    ensures s'.queue == []
    decreases |actions|
  {
    if actions != [] {
      assert !actions[0].Log?;
      EmptyStaysEmpty(bound, Next(bound, s, actions[0]), actions[1..], s');
    }
  }

  /** Every way the shutdown that is under way in `s` can end, with nothing queued meanwhile, has dealt with
      every event ever accepted. */
  ghost predicate LosesNothing(bound: nat, s: State) {
    forall actions, s' :: Runs(bound, s, actions, s') && NoneQueued(actions) && s'.phase.Stopped? ==>
                            multiset(s'.accepted) == s'.persisted + s'.failed
  }

  /** A shutdown is sure to lose nothing exactly if the queue is empty when it begins to wait. */
  lemma ShutdownLosesNothingIff(bound: nat, workers: nat, before: seq<Action>, s: State)
    requires Runs(bound, Init(workers), before, s) && s.phase.Draining?
    ensures LosesNothing(bound, s) <==> s.queue == []
  {
    if s.queue == [] {
      forall actions, s' | Runs(bound, s, actions, s') && NoneQueued(actions) && s'.phase.Stopped?
        ensures multiset(s'.accepted) == s'.persisted + s'.failed
      {
        EmptyStaysEmpty(bound, s, actions, s');
        RunsJoin(bound, Init(workers), before, s, actions, s');
        DrainedIff(bound, workers, before + actions, s');
      }
    } else {
      var actions, s' := ShutdownCompletes(bound, s);
      RunsJoin(bound, Init(workers), before, s, actions, s');
      DrainedIff(bound, workers, before + actions, s');
    }
  }

  /** Every way the shutdown under way in `s` can end, with or without further events, has dealt with every
      event ever accepted. */
  ghost predicate AlwaysDrains(bound: nat, s: State) {
    forall actions, s' :: Runs(bound, s, actions, s') && s'.phase.Stopped? ==>
                            multiset(s'.accepted) == s'.persisted + s'.failed
  }

  /** With loggers at work, a shutdown is sure to lose nothing exactly if the queue has no room at all. */
  lemma AlwaysDrainsIff(bound: nat, workers: nat, before: seq<Action>, s: State)
    requires Runs(bound, Init(workers), before, s) && s.phase.Draining?
    ensures AlwaysDrains(bound, s) <==> bound == 0
  {
    hide Inv;
    if bound == 0 {
      forall actions, s' | Runs(bound, s, actions, s') && s'.phase.Stopped?
        ensures multiset(s'.accepted) == s'.persisted + s'.failed
      {
        RunsJoin(bound, Init(workers), before, s, actions, s');
        EventsConserved(bound, workers, before + actions, s');
        DrainedIff(bound, workers, before + actions, s');
      }
    } else {
      var actions, s' := LosingEnd(bound, s);
      RunsJoin(bound, Init(workers), before, s, actions, s');
      DrainedIff(bound, workers, before + actions, s');
    }
  }

  /** With room in the queue, the shutdown can return with an event left behind. */
  lemma LosingEnd(bound: nat, s: State) returns (actions: seq<Action>, s': State)
    requires s.phase.Draining? && bound > 0
    ensures Runs(bound, s, actions, s') && s'.phase.Stopped? && s'.queue != []
  {
    if s.queue != [] {
      actions, s' := ShutdownCompletes(bound, s);
    } else {
      var tail;
      tail, s' := ShutdownCompletes(bound, Next(bound, s, Log(0)));
      actions := [Log(0)] + tail;
      assert actions[1..] == tail;
    }
  }

  /** With room in the queue, an accepted event can be left behind by a shutdown, for any pool of workers. */
  lemma EventCanBeLost(bound: nat, workers: nat, e: Event) returns (actions: seq<Action>, s: State)
    requires bound > 0
    ensures Runs(bound, Init(workers), actions, s) && s.phase.Stopped?
    ensures s.accepted == [e] == s.queue && s.persisted == s.failed == multiset{}
  {
    var s1 := Next(bound, Init(workers), Log(e));
    var s2 := Next(bound, s1, Close);
    var tail;
    tail, s := ShutdownCompletes(bound, s2);
    assert ([Close] + tail)[1..] == tail;
    actions := [Log(e)] + ([Close] + tail);
    assert actions[1..] == [Close] + tail;
    assert Runs(bound, s1, [Close] + tail, s);
  }
}
